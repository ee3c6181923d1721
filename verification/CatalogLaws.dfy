/** What Merge guarantees to the people whose devices it remembers. */
module CatalogLaws {
  import opened Common
  import opened Text
  import opened AliasLists
  import opened DeviceIdentity
  import opened Devices
  import opened DeviceCatalog

  // ---------------------------------------------------------------- conservation

  /** The live row behind position i of the merged list, or -1 for a slot nobody refreshed. */
  function Origin(slots: seq<Device>, live: seq<Device>, i: nat): (origin: int)
    requires i < |MergedList(slots, live)|
  {
    var m := Match(slots, live, |slots|);
    if i < |slots| then m[i] else Rest(m, |live|)[i - |slots|]
  }

  lemma OriginMeaning(slots: seq<Device>, live: seq<Device>, i: nat)
    requires i < |MergedList(slots, live)|
    ensures -1 <= Origin(slots, live, i) < |live|
    ensures Origin(slots, live, i) >= 0 ==> MergedList(slots, live)[i].id == live[Origin(slots, live, i)].id
    ensures MergedList(slots, live)[i].state
            == if Origin(slots, live, i) < 0 then OFFLINE else live[Origin(slots, live, i)].state
    ensures |slots| <= i ==> Origin(slots, live, i) >= 0
                             && MergedList(slots, live)[i] == live[Origin(slots, live, i)]
  {
    var m := Match(slots, live, |slots|);
    MatchIsGood(slots, live, |slots|);
    RestMeaning(m, |live|);
    if |slots| <= i {
      assert Rest(m, |live|)[i - |slots|] in Rest(m, |live|);
    }
  }

  /** Every live row becomes the primary of exactly one position. */
  lemma LiveRowsUsedOnce(slots: seq<Device>, live: seq<Device>, j: nat)
    requires j < |live|
    ensures exists i: nat | i < |MergedList(slots, live)| :: Origin(slots, live, i) == j
    ensures forall i: nat, k: nat | i < |MergedList(slots, live)| && k < |MergedList(slots, live)| ::
              Origin(slots, live, i) == j && Origin(slots, live, k) == j ==> i == k
  {
    hide SameCatalogDevice, MergedSlot;
    var m := Match(slots, live, |slots|);
    var rest := Rest(m, |live|);
    MatchIsGood(slots, live, |slots|);
    RestMeaning(m, |live|);
    if j in m {
      var i :| 0 <= i < |m| && m[i] == j;
      assert Origin(slots, live, i) == j;
    } else {
      var k :| 0 <= k < |rest| && rest[k] == j;
      assert Origin(slots, live, |slots| + k) == j;
    }
    forall i: nat, k: nat | i < k < |MergedList(slots, live)|
      ensures !(Origin(slots, live, i) == j && Origin(slots, live, k) == j)
    {
      if |slots| <= k {
        assert rest[k - |slots|] in rest;
      }
    }
  }

  lemma CombineNames(remembered: Device, current: Device)
    ensures Identities(Combine(remembered, current)) == Identities(remembered) + Identities(current)
    ensures Combine(remembered, current).remark == remembered.remark
  {
    MergedAliasesNames(current.id, current.aliases, remembered.id, remembered.aliases);
  }

  /** A slot keeps its names and its remark; it gains exactly the names of the row it took. */
  lemma SlotsKeepNames(slots: seq<Device>, live: seq<Device>, i: nat)
    requires i < |slots|
    ensures MergedList(slots, live)[i].remark == slots[i].remark
    ensures var taken := Origin(slots, live, i);
            -1 <= taken < |live|
            && Identities(MergedList(slots, live)[i])
               == Identities(slots[i]) + if taken < 0 then {} else Identities(live[taken])
  {
    OriginMeaning(slots, live, i);
    var taken := Origin(slots, live, i);
    if taken >= 0 {
      CombineNames(slots[i], live[taken]);
    }
  }

  ghost function AllNames(devices: seq<Device>): set<string> {
    set i, v | 0 <= i < |devices| && v in Identities(devices[i]) :: v
  }

  /** No name is lost and none is invented. */
  lemma MergeConservesNames(slots: seq<Device>, live: seq<Device>)
    ensures AllNames(MergedList(slots, live)) == AllNames(slots) + AllNames(live)
  {
    var list := MergedList(slots, live);
    forall v | v in AllNames(list)
      ensures v in AllNames(slots) + AllNames(live)
    {
      var i: nat :| i < |list| && v in Identities(list[i]);
      OriginMeaning(slots, live, i);
      if i < |slots| {
        SlotsKeepNames(slots, live, i);
      }
    }
    forall v | v in AllNames(slots)
      ensures v in AllNames(list)
    {
      var i: nat :| i < |slots| && v in Identities(slots[i]);
      SlotsKeepNames(slots, live, i);
    }
    forall v | v in AllNames(live)
      ensures v in AllNames(list)
    {
      var j: nat :| j < |live| && v in Identities(live[j]);
      LiveNamesSurvive(slots, live, j);
    }
  }

  lemma LiveNamesSurvive(slots: seq<Device>, live: seq<Device>, j: nat)
    requires j < |live|
    ensures exists i: nat | i < |MergedList(slots, live)| ::
        Identities(live[j]) <= Identities(MergedList(slots, live)[i])
  {
    LiveRowsUsedOnce(slots, live, j);
    var i: nat :| i < |MergedList(slots, live)| && Origin(slots, live, i) == j;
    OriginMeaning(slots, live, i);
    if i < |slots| {
      SlotsKeepNames(slots, live, i);
    }
  }

  // ---------------------------------------------------------------- whole runs

  function Run(devices: seq<Device>, ops: seq<Operation>): seq<Device>
    decreases |ops|
  {
    if ops == [] then devices else Run(Apply(devices, ops[0]), ops[1..])
  }

  /** Row i is the one this operation takes out of the catalog. */
  predicate Removes(devices: seq<Device>, op: Operation, i: nat) {
    op.Forget? && op.saveOk && Find(devices, op.deviceID, 0) == i
  }

  /** The position of row i after one operation that does not remove it. */
  function Moved(devices: seq<Device>, op: Operation, i: nat): (j: nat)
    requires i < |devices| && !Removes(devices, op, i)
  {
    if op.Forget? && op.saveOk && Find(devices, op.deviceID, 0) < i then i - 1 else i
  }

  /** Where row i is after the whole run, if it is still there. */
  function Track(devices: seq<Device>, ops: seq<Operation>, i: nat): (position: Option<nat>)
    requires i < |devices|
    ensures position.Some? ==> position.value < |Run(devices, ops)|
    decreases |ops|
  {
    if ops == [] then Some(i)
    else if Removes(devices, ops[0], i) then None
    else
      MovedKeeps(devices, ops[0], i);
      Track(Apply(devices, ops[0]), ops[1..], Moved(devices, ops[0], i))
  }

  /** The later row still answers to every name and has lost no identifying detail. */
  ghost predicate Keeps(earlier: Device, later: Device) {
    && Identities(earlier) <= Identities(later)
    && (earlier.hardwareID != "" ==> later.hardwareID != "")
    && (earlier.model != "" ==> later.model != "")
    && (earlier.product != "" ==> later.product != "")
  }

  /** A slot never loses a detail: gaps of the row it takes are filled from it. */
  lemma DetailsKept(slots: seq<Device>, live: seq<Device>, i: nat)
    requires i < |slots|
    ensures slots[i].hardwareID != "" ==> MergedList(slots, live)[i].hardwareID != ""
    ensures slots[i].model != "" ==> MergedList(slots, live)[i].model != ""
    ensures slots[i].product != "" ==> MergedList(slots, live)[i].product != ""
  {
    OriginMeaning(slots, live, i);
  }

  lemma DiscoverKeeps(devices: seq<Device>, live: seq<Device>, i: nat)
    requires i < |devices|
    ensures Keeps(devices[i], Stored(MergedList(devices, live))[i])
    ensures Stored(MergedList(devices, live))[i].remark == devices[i].remark
  {
    hide MergedList;
    SlotsKeepNames(devices, live, i);
    DetailsKept(devices, live, i);
    assert AllIDs(Stored(MergedList(devices, live))[i]) == AllIDs(MergedList(devices, live)[i]);
  }

  lemma AnnotatedKeeps(d: Device, remark: string)
    ensures Keeps(d, d) && Keeps(d, d.(remark := remark))
  {
    assert AllIDs(d.(remark := remark)) == AllIDs(d);
  }

  /** An annotation or a removal leaves the rows it does not meet as they are. */
  lemma OthersStay(devices: seq<Device>, op: Operation, i: nat)
    requires i < |devices| && !Removes(devices, op, i) && !op.Discover?
    ensures Moved(devices, op, i) < |Apply(devices, op)|
    ensures var later := Apply(devices, op)[Moved(devices, op, i)];
            later == devices[i] || (op.Annotate? && later == devices[i].(remark := op.remark))
  {
  }

  lemma MovedKeeps(devices: seq<Device>, op: Operation, i: nat)
    requires i < |devices| && !Removes(devices, op, i)
    ensures Moved(devices, op, i) < |Apply(devices, op)|
    ensures Keeps(devices[i], Apply(devices, op)[Moved(devices, op, i)])
    ensures !op.Annotate? ==> Apply(devices, op)[Moved(devices, op, i)].remark == devices[i].remark
  {
    hide MergedList, Stored, Find, Keeps;
    AnnotatedKeeps(devices[i], if op.Annotate? then op.remark else "");
    if op.Discover? {
      DiscoverKeeps(devices, op.live, i);
    } else {
      hide Apply, Moved;
      OthersStay(devices, op, i);
    }
  }

  /** Rows keep their order, so no two rows end up in one place. */
  lemma {:induction false} TrackKeepsOrder(devices: seq<Device>, ops: seq<Operation>, i: nat, j: nat)
    requires i < j < |devices|
    ensures Track(devices, ops, i).Some? && Track(devices, ops, j).Some? ==>
              Track(devices, ops, i).value < Track(devices, ops, j).value
    decreases |ops|
  {
    hide Apply;
    if ops == [] {
    } else if !Removes(devices, ops[0], i) && !Removes(devices, ops[0], j) {
      MovedKeeps(devices, ops[0], i);
      MovedKeeps(devices, ops[0], j);
      TrackKeepsOrder(Apply(devices, ops[0]), ops[1..], Moved(devices, ops[0], i), Moved(devices, ops[0], j));
    }
  }

  /** Operation k of the run finds row i first and takes it out. */
  ghost predicate RemovedBy(devices: seq<Device>, ops: seq<Operation>, i: nat, k: nat)
    requires i < |devices| && k < |ops|
  {
    var position := Track(devices, ops[..k], i);
    position.Some? && Removes(Run(devices, ops[..k]), ops[k], position.value)
  }

  lemma RemovedLater(devices: seq<Device>, ops: seq<Operation>, i: nat, k: nat)
    requires i < |devices| && k + 1 < |ops| && !Removes(devices, ops[0], i)
    ensures Moved(devices, ops[0], i) < |Apply(devices, ops[0])|
    ensures RemovedBy(devices, ops, i, k + 1)
            <==> RemovedBy(Apply(devices, ops[0]), ops[1..], Moved(devices, ops[0], i), k)
  {
    hide Apply, Removes;
    MovedKeeps(devices, ops[0], i);
    assert ops[..k + 1][0] == ops[0] && ops[..k + 1][1..] == ops[1..][..k];
  }

  /** A row is gone after a run exactly when some removal in it met that row first. */
  lemma {:induction false} GoneIff(devices: seq<Device>, ops: seq<Operation>, i: nat)
    requires i < |devices|
    ensures Track(devices, ops, i).None? <==> exists k: nat | k < |ops| :: RemovedBy(devices, ops, i, k)
    decreases |ops|
  {
    hide Apply, Removes, RemovedBy;
    if ops == [] {
    } else if Removes(devices, ops[0], i) {
      RemovedAtOnce(devices, ops, i);
    } else {
      MovedKeeps(devices, ops[0], i);
      var after, at := Apply(devices, ops[0]), Moved(devices, ops[0], i);
      GoneIff(after, ops[1..], at);
      RemovedAtOnce(devices, ops, i);
      forall k: nat | k + 1 < |ops|
        ensures RemovedBy(devices, ops, i, k + 1) <==> RemovedBy(after, ops[1..], at, k)
      {
        RemovedLater(devices, ops, i, k);
      }
      if k: nat :| k < |ops| && RemovedBy(devices, ops, i, k) {
        assert RemovedBy(after, ops[1..], at, k - 1);
      }
      if k: nat :| k < |ops[1..]| && RemovedBy(after, ops[1..], at, k) {
        assert RemovedBy(devices, ops, i, k + 1);
      }
    }
  }

  lemma RemovedAtOnce(devices: seq<Device>, ops: seq<Operation>, i: nat)
    requires i < |devices| && ops != []
    ensures RemovedBy(devices, ops, i, 0) <==> Removes(devices, ops[0], i)
  {
    assert ops[..0] == [];
  }

  /**
   * However often devices come, go, are annotated and are removed, a remembered row that was not itself
   * removed is still there, answers to all its names and has lost no identifying detail.
   */
  lemma {:induction false} NothingForgotten(devices: seq<Device>, ops: seq<Operation>, i: nat)
    requires i < |devices|
    ensures var position := Track(devices, ops, i);
            position.Some? ==>
              && Keeps(devices[i], Run(devices, ops)[position.value])
              && ((forall k | 0 <= k < |ops| :: !ops[k].Annotate?) ==>
                    Run(devices, ops)[position.value].remark == devices[i].remark)
    decreases |ops|
  {
    hide Apply;
    if ops == [] {
    } else if !Removes(devices, ops[0], i) {
      MovedKeeps(devices, ops[0], i);
      NothingForgotten(Apply(devices, ops[0]), ops[1..], Moved(devices, ops[0], i));
    }
  }

  /** Whatever an opened catalog went through, the file it wrote reads back as it is. */
  lemma ReopenedIsSame(persisted: seq<Device>, ops: seq<Operation>)
    ensures Stored(Run(Stored(persisted), ops)) == Run(Stored(persisted), ops)
  {
    StoredTwice(persisted);
    RunKeepsOffline(Stored(persisted), ops);
  }

  lemma ApplyKeepsOffline(devices: seq<Device>, op: Operation)
    requires Stored(devices) == devices
    ensures Stored(Apply(devices, op)) == Apply(devices, op)
  {
    hide MergedList;
    if op.Discover? {
      StoredTwice(MergedList(devices, op.live));
    } else {
      assert forall i | 0 <= i < |devices| :: Stored(devices)[i].state == OFFLINE;
      assert forall i | 0 <= i < |Apply(devices, op)| :: Apply(devices, op)[i].state == OFFLINE;
    }
  }

  lemma {:induction false} RunKeepsOffline(devices: seq<Device>, ops: seq<Operation>)
    requires Stored(devices) == devices
    ensures Stored(Run(devices, ops)) == Run(devices, ops)
    decreases |ops|
  {
    hide Apply;
    if ops == [] {
    } else {
      ApplyKeepsOffline(devices, ops[0]);
      RunKeepsOffline(Apply(devices, ops[0]), ops[1..]);
    }
  }

  lemma StoredTwice(list: seq<Device>)
    ensures Stored(Stored(list)) == Stored(list)
  {
  }

  // ---------------------------------------------------------------- details and names

  /** A display name somebody gave: present, and not just the serial. */
  predicate Proper(d: Device) {
    d.name != "" && d.name != d.id
  }

  function Filled(current: string, remembered: string): string {
    if |current| > 0 then current else remembered
  }

  /**
   * Every detail of a merged row.  A slot that took a live row has its serial, state and transport, its
   * own remark, the live details with gaps filled from memory, and the live name if that is a proper one,
   * else its own if that is; a slot that took none only goes offline.
   */
  lemma MergedDetails(slots: seq<Device>, live: seq<Device>, i: nat)
    requires i < |slots|
    ensures var merged, slot, taken := MergedList(slots, live)[i], slots[i], Origin(slots, live, i);
            && -1 <= taken < |live|
            && if taken < 0 then merged == slot.(state := "offline")
               else
                 var row := live[taken];
                 && merged.id == row.id && merged.state == row.state && merged.transport == row.transport
                 && merged.remark == slot.remark
                 && merged.name == (if Proper(row) || !Proper(slot) then row.name else slot.name)
                 && merged.model == Filled(row.model, slot.model)
                 && merged.product == Filled(row.product, slot.product)
                 && merged.hardwareID == Filled(row.hardwareID, slot.hardwareID)
  {
    hide SameCatalogDevice, MergedAliases;
    OriginMeaning(slots, live, i);
  }

  /** The live row an operation stores for row i, if it does. */
  function Taken(devices: seq<Device>, op: Operation, i: nat): Option<Device>
    requires i < |devices|
  {
    if op.Discover? && Apply(devices, op) == Stored(MergedList(devices, op.live)) then
      OriginMeaning(devices, op.live, i);
      if Origin(devices, op.live, i) >= 0 then Some(op.live[Origin(devices, op.live, i)]) else None
    else None
  }

  /** What one operation does to the name and the serial of a row that stays. */
  lemma NameStep(devices: seq<Device>, op: Operation, i: nat)
    requires i < |devices| && !Removes(devices, op, i)
    ensures Moved(devices, op, i) < |Apply(devices, op)|
    ensures var earlier, later, taken := devices[i], Apply(devices, op)[Moved(devices, op, i)], Taken(devices, op, i);
            if taken.None? then later.name == earlier.name && later.id == earlier.id
            else
              && later.id == taken.value.id
              && later.name == if Proper(taken.value) || !Proper(earlier) then taken.value.name else earlier.name
  {
    hide MergedList, Find, Proper, Origin, Keeps;
    MovedKeeps(devices, op, i);
    if op.Discover? {
      MergedDetails(devices, op.live, i);
    }
  }

  lemma {:induction false} RunSnoc(devices: seq<Device>, ops: seq<Operation>, op: Operation)
    ensures Run(devices, ops + [op]) == Apply(Run(devices, ops), op)
    decreases |ops|
  {
    hide Apply;
    if ops == [] {
      assert [op][1..] == [] && Run(Apply(devices, op), []) == Apply(devices, op);
      assert [] + [op] == [op];
    } else {
      assert (ops + [op])[1..] == ops[1..] + [op];
      RunSnoc(Apply(devices, ops[0]), ops[1..], op);
    }
  }

  lemma {:induction false} TrackSnoc(devices: seq<Device>, ops: seq<Operation>, op: Operation, i: nat)
    requires i < |devices|
    ensures var before, after := Track(devices, ops, i), Track(devices, ops + [op], i);
            if before.None? || Removes(Run(devices, ops), op, before.value) then after.None?
            else after == Some(Moved(Run(devices, ops), op, before.value))
    decreases |ops|
  {
    hide Apply, Removes, Moved;
    if ops == [] {
      assert [] + [op] == [op] && [op][1..] == [];
      if !Removes(devices, op, i) {
        MovedKeeps(devices, op, i);
        assert Track(Apply(devices, op), [], Moved(devices, op, i)) == Some(Moved(devices, op, i));
      }
    } else {
      assert (ops + [op])[1..] == ops[1..] + [op];
      if !Removes(devices, ops[0], i) {
        MovedKeeps(devices, ops[0], i);
        TrackSnoc(Apply(devices, ops[0]), ops[1..], op, Moved(devices, ops[0], i));
      }
    }
  }

  /** Row i as it is after the first k operations, while it is there. */
  function RowAt(devices: seq<Device>, ops: seq<Operation>, i: nat, k: nat): Option<Device>
    requires i < |devices| && k <= |ops|
  {
    var position := Track(devices, ops[..k], i);
    if position.None? then None else Some(Run(devices, ops[..k])[position.value])
  }

  /** The live row operation k stores for row i, if the row is there and the operation does. */
  function TakenAt(devices: seq<Device>, ops: seq<Operation>, i: nat, k: nat): Option<Device>
    requires i < |devices| && k < |ops|
  {
    var position := Track(devices, ops[..k], i);
    if position.None? then None else Taken(Run(devices, ops[..k]), ops[k], position.value)
  }

  /** One step of the row's history: it goes, or its name and serial are as the row it took says. */
  lemma RowStep(devices: seq<Device>, ops: seq<Operation>, i: nat, k: nat)
    requires i < |devices| && k < |ops| && RowAt(devices, ops, i, k + 1).Some?
    ensures RowAt(devices, ops, i, k).Some?
    ensures var earlier, later := RowAt(devices, ops, i, k).value, RowAt(devices, ops, i, k + 1).value;
            var taken := TakenAt(devices, ops, i, k);
            if taken.None? then later.name == earlier.name && later.id == earlier.id
            else
              && later.id == taken.value.id
              && later.name == if Proper(taken.value) || !Proper(earlier) then taken.value.name else earlier.name
  {
    hide Run, Track, Apply, Removes, Moved, Taken, Proper;
    assert ops[..k + 1] == ops[..k] + [ops[k]];
    RunSnoc(devices, ops[..k], ops[k]);
    TrackSnoc(devices, ops[..k], ops[k], i);
    NameStep(Run(devices, ops[..k]), ops[k], Track(devices, ops[..k], i).value);
  }

  /** Operation k gives row i a proper name: it stores a live row that has one. */
  predicate NamesAt(devices: seq<Device>, ops: seq<Operation>, i: nat, k: nat)
    requires i < |devices| && k < |ops|
  {
    var taken := TakenAt(devices, ops, i, k);
    taken.Some? && Proper(taken.value)
  }

  /** Operation k gives row i a serial that is spelled like this name. */
  predicate SpeltAt(devices: seq<Device>, ops: seq<Operation>, i: nat, k: nat, name: string)
    requires i < |devices| && k < |ops|
  {
    var taken := TakenAt(devices, ops, i, k);
    taken.Some? && taken.value.id == name
  }

  /** The latest proper name before n is from operation k, or was there at first; no serial since is spelt like it. */
  ghost predicate Holds(devices: seq<Device>, ops: seq<Operation>, i: nat, k: int, n: nat, name: string)
    requires i < |devices| && (-1 <= k < n <= |ops| || (k == -1 && n == 0))
  {
    && (if k < 0 then Proper(devices[i]) && name == devices[i].name
        else NamesAt(devices, ops, i, k) && name == TakenAt(devices, ops, i, k).value.name)
    && forall m: nat | k < m < n :: !NamesAt(devices, ops, i, m) && !SpeltAt(devices, ops, i, m, name)
  }

  lemma RowAtFirst(devices: seq<Device>, ops: seq<Operation>, i: nat)
    requires i < |devices|
    ensures RowAt(devices, ops, i, 0) == Some(devices[i])
  {
    assert ops[..0] == [];
  }

  /**
   * A proper name is never replaced by a bare serial: a row shows the latest one it was given, for as long
   * as no row it takes afterwards has that very name for its serial.
   */
  lemma {:induction false} ProperNameStays(
      devices: seq<Device>, ops: seq<Operation>, i: nat, k: int, n: nat, name: string)
    requires i < |devices| && (-1 <= k < n <= |ops| || (k == -1 && n == 0))
    requires RowAt(devices, ops, i, n).Some? && Holds(devices, ops, i, k, n, name)
    ensures Proper(RowAt(devices, ops, i, n).value) && RowAt(devices, ops, i, n).value.name == name
  {
    hide RowAt, TakenAt;
    if n == 0 {
      RowAtFirst(devices, ops, i);
    } else {
      RowStep(devices, ops, i, n - 1);
      if k < n - 1 {
        assert !NamesAt(devices, ops, i, n - 1) && !SpeltAt(devices, ops, i, n - 1, name);
        ProperNameStays(devices, ops, i, k, n - 1, name);
      }
    }
  }

  /** And a row that shows a proper name was given it like that. */
  lemma {:induction false} ProperNameWasGiven(
      devices: seq<Device>, ops: seq<Operation>, i: nat, n: nat) returns (k: int)
    requires i < |devices| && n <= |ops|
    requires RowAt(devices, ops, i, n).Some? && Proper(RowAt(devices, ops, i, n).value)
    ensures -1 <= k < n || (k == -1 && n == 0)
    ensures Holds(devices, ops, i, k, n, RowAt(devices, ops, i, n).value.name)
  {
    hide RowAt, TakenAt;
    if n == 0 {
      k := -1;
      RowAtFirst(devices, ops, i);
    } else {
      RowStep(devices, ops, i, n - 1);
      if NamesAt(devices, ops, i, n - 1) {
        k := n - 1;
      } else {
        k := ProperNameWasGiven(devices, ops, i, n - 1);
      }
    }
  }

  /** So after any run the name is exactly known: who shows which proper name, and why. */
  lemma ProperNameIff(devices: seq<Device>, ops: seq<Operation>, i: nat, name: string)
    requires i < |devices| && Track(devices, ops, i).Some?
    ensures var row := Run(devices, ops)[Track(devices, ops, i).value];
            Proper(row) && row.name == name
            <==> exists k: int | -1 == k || 0 <= k < |ops| :: Holds(devices, ops, i, k, |ops|, name)
  {
    hide Holds, Proper;
    assert ops[..|ops|] == ops;
    assert RowAt(devices, ops, i, |ops|) == Some(Run(devices, ops)[Track(devices, ops, i).value]);
    var row := RowAt(devices, ops, i, |ops|).value;
    if Proper(row) && row.name == name {
      var k := ProperNameWasGiven(devices, ops, i, |ops|);
    }
    if k: int :| (-1 == k || 0 <= k < |ops|) && Holds(devices, ops, i, k, |ops|, name) {
      ProperNameStays(devices, ops, i, k, |ops|, name);
    }
  }

  function PhoneNamed(id: string, name: string): Device {
    Device(id, name, "", "", "", OFFLINE, "usb", "serial:1", [])
  }

  lemma OneTakesOne(slot: Device, row: Device)
    requires SameCatalogDevice(slot, row)
    ensures MergedList([slot], [row]) == [Combine(slot, row)]
  {
    hide SameCatalogDevice, Combine;
    PickMeaning(slot, [row], [], 0);
    assert Match([slot], [row], 0) == [];
    assert Match([slot], [row], 1) == [0];
    assert Rest([0], 1) == [];
  }

  /** If a serial is spelt like the name, the name is lost with the next serial: three serials of one handset. */
  lemma NameMeetsSerial()
    ensures var x, z := PhoneNamed("x", "x"), PhoneNamed("z", "z");
            var after := Run([PhoneNamed("y", "x")], [Discover([x], true), Discover([z], true)]);
            Proper(PhoneNamed("y", "x")) && |after| == 1 && after[0].name == "z" == after[0].id
  {
    hide MergedList, MergedAliases, SameNames;
    var x, z := PhoneNamed("x", "x"), PhoneNamed("z", "z");
    var y := PhoneNamed("y", "x");
    var first, second := Discover([x], true), Discover([z], true);
    OneTakesOne(y, x);
    var middle := Combine(y, x).(state := OFFLINE);
    assert Apply([y], first) == [middle];
    OneTakesOne(middle, z);
    assert Apply([middle], second) == [Combine(middle, z).(state := OFFLINE)];
    assert [first, second][1..] == [second] && [second][1..] == [];
    assert Run([middle], [second]) == Run(Apply([middle], second), []);
  }

  // ---------------------------------------------------------------- which row a serial finds

  /** The row's serial, one of its aliases, or an equivalent of its serial. */
  predicate Called(d: Device, deviceID: string) {
    || d.id == deviceID
    || (exists a | 0 <= a < |d.aliases| :: d.aliases[a] == deviceID)
    || EquivalentDeviceID(deviceID, d.id)
  }

  /** A remark or a removal meets the first row that is called so, and none exactly if there is none. */
  lemma FindIff(devices: seq<Device>, deviceID: string, k: nat)
    requires k <= |devices|
    ensures Find(devices, deviceID, 0) == k <==>
              && (forall j | 0 <= j < k :: !Called(devices[j], deviceID))
              && (k < |devices| ==> Called(devices[k], deviceID))
  {
    hide EquivalentDeviceID;
    forall j | 0 <= j < |devices|
      ensures AnswersTo(devices[j], deviceID) <==> Called(devices[j], deviceID)
    {
      EquivalentIsEquivalence(devices[j].id, deviceID, "");
    }
  }

  // ---------------------------------------------------------------- idempotence

  ghost predicate PairwiseUnrelated(live: seq<Device>) {
    forall j, k | 0 <= j < |live| && 0 <= k < |live| && j != k :: !SameCatalogDevice(live[j], live[k])
  }

  lemma CombineRecognises(remembered: Device, current: Device, other: Device)
    ensures SameCatalogDevice(Combine(remembered, current), current)
    ensures SameCatalogDevice(Combine(remembered, current), other) ==>
              SameCatalogDevice(remembered, other) || SameCatalogDevice(current, other)
  {
    var combined := Combine(remembered, current);
    assert AllIDs(combined)[0] == current.id && AllIDs(current)[0] == current.id;
    assert EquivalentDeviceID(current.id, current.id);
    if SameNames(combined, other) {
      var a, b :| a in AllIDs(combined) && b in AllIDs(other) && EquivalentDeviceID(a, b);
      assert a in AllIDs(remembered) || a in AllIDs(current);
    }
  }

  lemma OfflineRecognises(d: Device, other: Device)
    ensures SameCatalogDevice(d.(state := OFFLINE), other) <==> SameCatalogDevice(d, other)
  {
    assert AllIDs(d.(state := OFFLINE)) == AllIDs(d);
  }

  /** No free row before the one slot i took is recognised once the slot holds what it took. */
  ghost predicate Steady(slots: seq<Device>, live: seq<Device>, i: nat)
    requires i < |slots|
  {
    var before := Match(slots, live, i);
    var r := Pick(slots[i], live, before, 0);
    && r < |live|
    && forall j: nat | j < r && j !in before :: !SameCatalogDevice(Combine(slots[i], live[r]), live[j])
  }

  /** The slot Merge leaves behind takes the same row again, exactly when it is steady. */
  lemma SlotTakesSameRow(slots: seq<Device>, live: seq<Device>, i: nat)
    requires i < |slots|
    ensures var before := Match(slots, live, i);
            var r := Pick(slots[i], live, before, 0);
            && -1 <= r < |live|
            && var p := Pick(MergedSlot(slots[i], live, r).(state := OFFLINE), live, before, 0);
            && -1 <= p < |live|
            && (p == r <==> Steady(slots, live, i))
            && (p < 0 <==> r < 0)
  {
    hide SameCatalogDevice, Combine;
    var before := Match(slots, live, i);
    PickMeaning(slots[i], live, before, 0);
    var r := Pick(slots[i], live, before, 0);
    var again := MergedSlot(slots[i], live, r);
    PickMeaning(again.(state := OFFLINE), live, before, 0);
    forall j | 0 <= j < |live|
      ensures SameCatalogDevice(again.(state := OFFLINE), live[j]) <==> SameCatalogDevice(again, live[j])
      ensures r < 0 ==> (SameCatalogDevice(again, live[j]) <==> SameCatalogDevice(slots[i], live[j]))
      ensures j == r ==> SameCatalogDevice(again, live[j])
    {
      OfflineRecognises(again, live[j]);
      OfflineRecognises(slots[i], live[j]);
      if r >= 0 {
        CombineRecognises(slots[i], live[r], live[j]);
      }
    }
  }

  /** Unrelated live rows leave every slot steady. */
  lemma UnrelatedIsSteady(slots: seq<Device>, live: seq<Device>, i: nat)
    requires PairwiseUnrelated(live) && i < |slots|
    ensures Steady(slots, live, i)
  {
    hide SameCatalogDevice, Combine;
    var before := Match(slots, live, i);
    PickMeaning(slots[i], live, before, 0);
    var r := Pick(slots[i], live, before, 0);
    forall j: nat | j < r && j !in before
      ensures !SameCatalogDevice(Combine(slots[i], live[r]), live[j])
    {
      CombineRecognises(slots[i], live[r], live[j]);
    }
  }

  /** What the stored catalog holds after the merge, position by position. */
  lemma StoredAfterMerge(slots: seq<Device>, live: seq<Device>, i: nat)
    requires i < |MergedList(slots, live)|
    ensures var again := Stored(MergedList(slots, live));
            var m := Match(slots, live, |slots|);
            if i < |slots|
            then m[i] < |live| && again[i] == MergedSlot(slots[i], live, m[i]).(state := OFFLINE)
            else Rest(m, |live|)[i - |slots|] < |live|
                 && again[i] == live[Rest(m, |live|)[i - |slots|]].(state := OFFLINE)
  {
    OriginMeaning(slots, live, i);
  }

  lemma {:induction false} MatchPrefix(slots: seq<Device>, live: seq<Device>, n: nat, k: nat)
    requires n <= k <= |slots|
    ensures Match(slots, live, k)[..n] == Match(slots, live, n)
  {
    if n == k {
    } else {
      MatchPrefix(slots, live, n, k - 1);
    }
  }

  /** Row i of the first matching, seen from the whole matching. */
  lemma MatchAt(slots: seq<Device>, live: seq<Device>, i: nat)
    requires i < |slots|
    ensures Match(slots, live, |slots|)[i] == Pick(slots[i], live, Match(slots, live, i), 0)
  {
    MatchPrefix(slots, live, i + 1, |slots|);
    assert Match(slots, live, |slots|)[i] == Match(slots, live, |slots|)[..i + 1][i];
  }

  lemma {:induction false} SlotsTakeSameRows(slots: seq<Device>, live: seq<Device>, again: seq<Device>, n: nat)
    requires n <= |slots| && again == Stored(MergedList(slots, live))
    requires forall i: nat | i < n :: Steady(slots, live, i)
    ensures Match(again, live, n) == Match(slots, live, n)
  {
    hide SameCatalogDevice, MergedSlot, Steady;
    if n == 0 {
    } else {
      SlotsTakeSameRows(slots, live, again, n - 1);
      StoredAfterMerge(slots, live, n - 1);
      MatchAt(slots, live, n - 1);
      SlotTakesSameRow(slots, live, n - 1);
    }
  }

  /** A live row nobody took recognises itself first, once those before it are taken. */
  lemma AppendedTakesItself(live: seq<Device>, row: Device, own: int, taken: seq<int>)
    requires 0 <= own < |live| && own !in taken && row == live[own].(state := OFFLINE)
    requires forall j: nat | j < own :: j in taken
    ensures Pick(row, live, taken, 0) == own
  {
    hide SameCatalogDevice;
    PickMeaning(row, live, taken, 0);
    OfflineRecognises(live[own], live[own]);
    SameCatalogReflexive(live[own]);
  }

  lemma RestFresh(m: seq<int>, n: nat, rest: seq<int>, k: nat)
    requires rest == Rest(m, n) && k < |rest|
    ensures 0 <= rest[k] < n && rest[k] !in m + rest[..k]
    ensures forall j: nat | j < rest[k] :: j in m + rest[..k]
  {
    RestMeaning(m, n);
    assert rest[k] in rest;
    forall j: nat | j < rest[k] && j !in m
      ensures j in rest[..k]
    {
      assert j in rest;
      var l :| 0 <= l < |rest| && rest[l] == j;
      assert l < k && rest[..k][l] == j;
    }
  }

  lemma {:induction false} RestEmpty(m: seq<int>, n: nat)
    requires forall j: nat | j < n :: j in m
    ensures Rest(m, n) == []
  {
    if n == 0 {
    } else {
      RestEmpty(m, n - 1);
    }
  }

  lemma PrefixGrows(m: seq<int>, rest: seq<int>, k: nat)
    requires 0 < k <= |rest|
    ensures (m + rest[..k - 1]) + [rest[k - 1]] == m + rest[..k]
  {
  }

  /** Rows that were appended take themselves: every free row before them is gone by then. */
  lemma {:induction false} AppendedTakeThemselves(
      slots: seq<Device>, live: seq<Device>, again: seq<Device>, m: seq<int>, rest: seq<int>, k: nat)
    requires AllSteady(slots, live) && again == Stored(MergedList(slots, live))
    requires m == Match(slots, live, |slots|) && rest == Rest(m, |live|) && k <= |rest|
    ensures Match(again, live, |slots| + k) == m + rest[..k]
  {
    hide SameCatalogDevice, MergedSlot, Steady;
    if k == 0 {
      SlotsTakeSameRows(slots, live, again, |slots|);
    } else {
      AppendedTakeThemselves(slots, live, again, m, rest, k - 1);
      StoredAfterMerge(slots, live, |slots| + k - 1);
      RestFresh(m, |live|, rest, k - 1);
      AppendedTakesItself(live, again[|slots| + k - 1], rest[k - 1], m + rest[..k - 1]);
      PrefixGrows(m, rest, k);
    }
  }

  /** The remembered name is the live serial itself and the live row brings none. */
  predicate NameLost(remembered: Device, current: Device) {
    current.name == "" && remembered.name == current.id && remembered.name != "" && remembered.name != remembered.id
  }

  lemma CombineTwice(remembered: Device, current: Device)
    ensures Combine(Combine(remembered, current).(state := OFFLINE), current) == Combine(remembered, current)
            <==> !NameLost(remembered, current)
  {
    MergedAliasesStable(current.id, current.aliases, remembered.id, remembered.aliases);
  }

  lemma CombineSelf(current: Device)
    ensures Combine(current.(state := OFFLINE), current) == current <==> Clean(current.id, current.aliases)
  {
    MergedAliasesSelf(current.id, current.aliases);
  }

  /** What the first Merge call will do decides whether the second one is silent. */
  ghost predicate Stable(slots: seq<Device>, live: seq<Device>) {
    forall i: nat | i < |MergedList(slots, live)| :: StableAt(slots, live, i)
  }

  ghost predicate StableAt(slots: seq<Device>, live: seq<Device>, i: nat)
    requires i < |MergedList(slots, live)|
  {
    var taken := Origin(slots, live, i);
    && taken < |live|
    && (i < |slots| && taken >= 0 ==> !NameLost(slots[i], live[taken]))
    && (|slots| <= i ==> taken >= 0 && Clean(live[taken].id, live[taken].aliases))
  }

  ghost predicate AllSteady(slots: seq<Device>, live: seq<Device>) {
    forall i: nat | i < |slots| :: Steady(slots, live, i)
  }

  ghost predicate DistinctSerials(live: seq<Device>) {
    forall j, k | 0 <= j < k < |live| :: live[j].id != live[k].id
  }

  lemma NobodyLeft(m: seq<int>, n: nat, rest: seq<int>)
    requires rest == Rest(m, n)
    ensures Rest(m + rest, n) == []
  {
    RestMeaning(m, n);
    forall j: nat | j < n
      ensures j in m + rest
    {
      assert j in m || j in rest;
    }
    RestEmpty(m + rest, n);
  }

  /** The second Merge takes the same rows and leaves none over. */
  lemma SecondMatch(slots: seq<Device>, live: seq<Device>, m: seq<int>, rest: seq<int>)
    requires AllSteady(slots, live)
    requires m == Match(slots, live, |slots|) && rest == Rest(m, |live|)
    ensures Match(Stored(MergedList(slots, live)), live, |MergedList(slots, live)|) == m + rest
    ensures Rest(m + rest, |live|) == []
  {
    hide SameCatalogDevice, MergedSlot, AllSteady;
    AppendedTakeThemselves(slots, live, Stored(MergedList(slots, live)), m, rest, |rest|);
    assert rest[..|rest|] == rest;
    NobodyLeft(m, |live|, rest);
  }

  /** The second Merge changes position i exactly when that position is not stable. */
  lemma SecondMergeAt(slots: seq<Device>, live: seq<Device>, i: nat)
    requires AllSteady(slots, live)
    requires i < |MergedList(slots, live)|
    ensures var list := MergedList(slots, live);
            |MergedList(Stored(list), live)| == |list|
            && (MergedList(Stored(list), live)[i] == list[i] <==> StableAt(slots, live, i))
  {
    hide SameCatalogDevice, AllSteady;
    var m := Match(slots, live, |slots|);
    var rest := Rest(m, |live|);
    SecondMatch(slots, live, m, rest);
    OriginMeaning(slots, live, i);
    assert (m + rest)[i] == Origin(slots, live, i);
    var taken := Origin(slots, live, i);
    if taken >= 0 {
      if i < |slots| {
        CombineTwice(slots[i], live[taken]);
      } else {
        CombineSelf(live[taken]);
      }
    }
  }

  lemma SteadyStableSame(slots: seq<Device>, live: seq<Device>)
    requires AllSteady(slots, live)
    ensures MergedList(Stored(MergedList(slots, live)), live) == MergedList(slots, live) <==> Stable(slots, live)
  {
    hide AllSteady;
    var list := MergedList(slots, live);
    forall i: nat | i < |list|
      ensures |MergedList(Stored(list), live)| == |list|
      ensures MergedList(Stored(list), live)[i] == list[i] <==> StableAt(slots, live, i)
    {
      SecondMergeAt(slots, live, i);
    }
    SecondMatch(slots, live, Match(slots, live, |slots|), Rest(Match(slots, live, |slots|), |live|));
  }

  lemma SerialAt(slots: seq<Device>, live: seq<Device>, n: nat)
    requires n < |slots|
    ensures n < |MergedList(slots, live)|
    ensures var r := Pick(slots[n], live, Match(slots, live, n), 0);
            -1 <= r < |live| && (r >= 0 ==> MergedList(slots, live)[n].id == live[r].id)
  {
    hide SameCatalogDevice;
    MatchAt(slots, live, n);
    OriginMeaning(slots, live, n);
  }

  /** Slot n of the second merge has the serial of the row it took. */
  lemma SecondSerial(slots: seq<Device>, live: seq<Device>, again: seq<Device>, n: nat)
    requires n < |slots| && again == Stored(MergedList(slots, live))
    requires Match(again, live, n) == Match(slots, live, n)
    ensures n < |MergedList(again, live)|
    ensures var before := Match(slots, live, n);
            var r, p := Pick(slots[n], live, before, 0), Pick(again[n], live, before, 0);
            && -1 <= r < |live| && -1 <= p < |live| && (p < 0 <==> r < 0) && (p == r <==> Steady(slots, live, n))
            && (r >= 0 ==> MergedList(slots, live)[n].id == live[r].id && MergedList(again, live)[n].id == live[p].id)
  {
    hide SameCatalogDevice, Steady, MergedList, MergedSlot, Pick, Match;
    StoredAfterMerge(slots, live, n);
    MatchAt(slots, live, n);
    SlotTakesSameRow(slots, live, n);
    SerialAt(slots, live, n);
    SerialAt(again, live, n);
  }

  /** If the second merge returns the same list, every slot took its row again. */
  lemma {:induction false} SameListIsSteady(slots: seq<Device>, live: seq<Device>, n: nat)
    requires DistinctSerials(live) && n <= |slots|
    requires MergedList(Stored(MergedList(slots, live)), live) == MergedList(slots, live)
    ensures forall i: nat | i < n :: Steady(slots, live, i)
    ensures Match(Stored(MergedList(slots, live)), live, n) == Match(slots, live, n)
  {
    hide SameCatalogDevice, Steady, MergedList, Stored;
    if n == 0 {
    } else {
      SameListIsSteady(slots, live, n - 1);
      var list, again := MergedList(slots, live), Stored(MergedList(slots, live));
      SecondSerial(slots, live, again, n - 1);
      assert MergedList(again, live)[n - 1].id == list[n - 1].id;
      SlotsTakeSameRows(slots, live, Stored(MergedList(slots, live)), n);
    }
  }

  /** Taking this row leaves the entry as it is. */
  predicate Agrees(entry: Device, row: Device) {
    && row.id == entry.id && row.state == entry.state && row.transport == entry.transport
    && (row.name == entry.name
        || ((row.name == "" || row.name == row.id) && entry.name != "" && entry.name != entry.id))
    && (row.model == "" || row.model == entry.model)
    && (row.product == "" || row.product == entry.product)
    && (row.hardwareID == "" || row.hardwareID == entry.hardwareID)
    && Clean(entry.id, entry.aliases) && Unique(Without(entry.id, row.aliases)) <= entry.aliases
  }

  lemma AgreesIff(entry: Device, row: Device)
    ensures Combine(entry.(state := OFFLINE), row) == entry <==> Agrees(entry, row)
  {
    hide MergedAliases, Clean;
    MergedAliasesKeptIff(entry.id, row.aliases, entry.aliases);
  }

  /** The second merge has a row for every live one, and each entry agrees with what it takes then. */
  ghost predicate Settled(list: seq<Device>, live: seq<Device>) {
    var m := Match(Stored(list), live, |list|);
    && (forall j: nat | j < |live| :: j in m)
    && forall i | 0 <= i < |list| :: SettledAt(list[i], live, m[i])
  }

  predicate SettledAt(entry: Device, live: seq<Device>, taken: int) {
    taken < |live| && if taken < 0 then entry.state == OFFLINE else Agrees(entry, live[taken])
  }

  /** For whatever rows: merging into a stored list gives the list exactly when it is settled. */
  lemma MergedIsSameIff(list: seq<Device>, live: seq<Device>)
    ensures MergedList(Stored(list), live) == list <==> Settled(list, live)
  {
    hide SameCatalogDevice, Agrees, Combine;
    var m := Match(Stored(list), live, |list|);
    MatchIsGood(Stored(list), live, |list|);
    RestMeaning(m, |live|);
    if forall j: nat | j < |live| :: j in m {
      RestEmpty(m, |live|);
    }
    if Rest(m, |live|) == [] {
      assert forall j: nat | j < |live| :: j in Rest(m, |live|) || j in m;
    }
    forall i | 0 <= i < |list|
      ensures MergedList(Stored(list), live)[i] == list[i] <==> SettledAt(list[i], live, m[i])
    {
      if m[i] >= 0 {
        AgreesIff(list[i], live[m[i]]);
      }
    }
  }

  /**
   * Merging the same live rows twice is merging them once exactly when the list the first merge returned is
   * settled, whatever the rows.  In terms of the first merge alone: if every slot stays steady on the row it
   * took, exactly when no slot loses its name and every appended row has clean aliases; and for rows with
   * different serials the slots must be steady.
   */
  lemma MergeIdempotentIff(slots: seq<Device>, live: seq<Device>)
    ensures var list := MergedList(slots, live);
            && (MergedList(Stored(list), live) == list <==> Settled(list, live))
            && (AllSteady(slots, live) ==> (MergedList(Stored(list), live) == list <==> Stable(slots, live)))
            && (DistinctSerials(live) ==>
                  (MergedList(Stored(list), live) == list <==> AllSteady(slots, live) && Stable(slots, live)))
  {
    hide Steady, Stable, MergedList, Stored, Settled;
    MergedIsSameIff(MergedList(slots, live), live);
    if DistinctSerials(live) && MergedList(Stored(MergedList(slots, live)), live) == MergedList(slots, live) {
      SameListIsSteady(slots, live, |slots|);
    }
    if AllSteady(slots, live) {
      SteadyStableSame(slots, live);
    }
  }

  lemma UnrelatedHaveDistinctSerials(live: seq<Device>)
    requires PairwiseUnrelated(live)
    ensures DistinctSerials(live)
  {
    forall j, k | 0 <= j < k < |live|
      ensures live[j].id != live[k].id
    {
      assert AllIDs(live[j])[0] == live[j].id && AllIDs(live[k])[0] == live[k].id;
      assert EquivalentDeviceID(live[j].id, live[j].id);
    }
  }

  /** For unrelated live rows only names and aliases decide. */
  lemma MergeUnrelatedIff(slots: seq<Device>, live: seq<Device>)
    requires PairwiseUnrelated(live)
    ensures MergedList(Stored(MergedList(slots, live)), live) == MergedList(slots, live) <==> Stable(slots, live)
  {
    hide Steady, Stable, MergedList, Stored, SameCatalogDevice;
    UnrelatedHaveDistinctSerials(live);
    forall i: nat | i < |slots|
      ensures Steady(slots, live, i)
    {
      UnrelatedIsSteady(slots, live, i);
    }
    MergeIdempotentIff(slots, live);
  }

  /** Named rows with clean alias lists are enough, whatever is remembered. */
  lemma MergeIdempotent(slots: seq<Device>, live: seq<Device>)
    requires PairwiseUnrelated(live)
    requires forall j | 0 <= j < |live| :: live[j].name != "" && Clean(live[j].id, live[j].aliases)
    ensures MergedList(Stored(MergedList(slots, live)), live) == MergedList(slots, live)
    ensures Apply(Apply(slots, Discover(live, true)), Discover(live, true)) == Apply(slots, Discover(live, true))
  {
    forall i: nat | i < |MergedList(slots, live)|
      ensures StableAt(slots, live, i)
    {
      OriginMeaning(slots, live, i);
    }
    MergeUnrelatedIff(slots, live);
  }

  /** A row as ADB lists it, with the hardware key it was given. */
  function ADBRow(id: string, hardwareID: string): Device {
    Device(id, id, "", "", "", ONLINE, "wireless", hardwareID, [])
  }

  /** A remembered handset, and its two wireless rows of which only the second could be asked for its serial number. */
  function Remembered(): Device {
    Device("usb1", "usb1", "", "", "", OFFLINE, "usb", "serial:1", [])
  }

  function TwoRows(name: string, n: string): seq<Device> {
    [ADBRow(name + MDNS_SUFFIX, "mdns:" + name).(state := OFFLINE),
     ADBRow(name + " (" + n + ")" + MDNS_SUFFIX, "serial:1")]
  }

  lemma TwoRowsRelations(name: string, n: string)
    requires name != "" && !EndsWithMarker(name) && n != "" && AllDigits(n)
    ensures var live := TwoRows(name, n);
            && |live| == 2
            && !SameCatalogDevice(Remembered(), live[0]) && SameCatalogDevice(Remembered(), live[1])
            && EquivalentDeviceID(live[1].id, live[0].id)
  {
    var live := TwoRows(name, n);
    CollisionKeepsIdentity(name, n);
    EquivalentIsEquivalence(live[0].id, live[1].id, "");
    SuffixSplits(name);
    assert HasSuffix(live[0].id, MDNS_SUFFIX) && !HasSuffix("usb1", MDNS_SUFFIX);
    assert live[0].hardwareID[0] == 'm' && Remembered().hardwareID[0] == 's';
    assert AllIDs(live[1])[0] == live[1].id && AllIDs(live[0])[0] == live[0].id;
  }

  /** Related live rows can trade places: the second merge lets each of the two entries take the other row. */
  lemma RelatedRowsSwap(name: string, n: string)
    requires name != "" && !EndsWithMarker(name) && n != "" && AllDigits(n)
    ensures var live := TwoRows(name, n);
            var list := MergedList([Remembered()], live);
            var again := MergedList(Stored(list), live);
            && |list| == |again| == 2
            && list[0].id == live[1].id && list[1].id == live[0].id
            && again[0].id == live[0].id && again[1].id == live[1].id
  {
    hide SameCatalogDevice, EndsWithMarker, Combine, TwoRows, Remembered;
    var slot, live := Remembered(), TwoRows(name, n);
    TwoRowsRelations(name, n);
    PickMeaning(slot, live, [], 0);
    OneSlotTakes(slot, live);
    var list := MergedList([slot], live);
    SerialOfCombine(slot, live[1]);
    RecognisesSerial(slot, live[1], live[0]);
    SerialsRecognise(live[0], live[1]);
    TwoSlotsTake(Stored(list), live);
    SerialOfCombine(Stored(list)[0], live[0]);
    SerialOfCombine(Stored(list)[1], live[1]);
  }

  lemma OneSlotTakes(slot: Device, live: seq<Device>)
    requires |live| == 2 && !SameCatalogDevice(slot, live[0]) && SameCatalogDevice(slot, live[1])
    ensures MergedList([slot], live) == [Combine(slot, live[1]), live[0]]
  {
    hide SameCatalogDevice, Combine;
    PickMeaning(slot, live, [], 0);
    assert Match([slot], live, 0) == [];
    assert Match([slot], live, 1) == [1];
    assert Rest([1], 1) == [0];
    assert Rest([1], 2) == [0];
  }

  lemma TwoSlotsTake(slots: seq<Device>, live: seq<Device>)
    requires |slots| == |live| == 2
    requires SameCatalogDevice(slots[0], live[0]) && SameCatalogDevice(slots[1], live[1])
    ensures MergedList(slots, live) == [Combine(slots[0], live[0]), Combine(slots[1], live[1])]
  {
    hide SameCatalogDevice, Combine;
    assert Match(slots, live, 0) == [];
    assert Match(slots, live, 1) == [0];
    PickMeaning(slots[1], live, [0], 0);
    assert Match(slots, live, 2) == [0, 1];
    assert Rest([0, 1], 2) == [];
  }

  /** Rows with equivalent serials recognise each other, offline too. */
  lemma SerialsRecognise(row: Device, other: Device)
    requires EquivalentDeviceID(other.id, row.id)
    ensures SameCatalogDevice(row.(state := OFFLINE), other)
  {
    hide EquivalentDeviceID;
    EquivalentIsEquivalence(other.id, row.id, "");
    assert AllIDs(row.(state := OFFLINE))[0] == row.id && AllIDs(other)[0] == other.id;
  }

  function SlotPair(): seq<Device> {
    [ADBRow("z", "serial:1").(state := OFFLINE), ADBRow("a", "serial:1").(state := OFFLINE)]
  }

  function SerialPair(): seq<Device> {
    [ADBRow("a", ""), ADBRow("a", "serial:1")]
  }

  lemma PairRelations()
    ensures var slots, live := SlotPair(), SerialPair();
            && !SameCatalogDevice(slots[0], live[0]) && SameCatalogDevice(slots[0], live[1])
            && SameCatalogDevice(slots[1], live[0])
            && SameCatalogDevice(Combine(slots[0], live[1]), live[0])
  {
    hide Combine;
    var slots, live := SlotPair(), SerialPair();
    SerialOfCombine(slots[0], live[1]);
    assert !EquivalentDeviceID("z", "a");
    assert forall d, e | AllIDs(d)[0] == AllIDs(e)[0] :: AllIDs(d)[0] in AllIDs(d) && AllIDs(e)[0] in AllIDs(e);
    assert AllIDs(slots[1])[0] == AllIDs(live[0])[0] == AllIDs(Combine(slots[0], live[1]))[0] == "a";
    assert EquivalentDeviceID("a", "a");
  }

  lemma TwoSlotsCross(slots: seq<Device>, live: seq<Device>)
    requires |slots| == |live| == 2
    requires !SameCatalogDevice(slots[0], live[0]) && SameCatalogDevice(slots[0], live[1])
    requires SameCatalogDevice(slots[1], live[0])
    ensures MergedList(slots, live) == [Combine(slots[0], live[1]), Combine(slots[1], live[0])]
    ensures Match(slots, live, 0) == [] && Pick(slots[0], live, [], 0) == 1
  {
    hide SameCatalogDevice, Combine;
    PickMeaning(slots[0], live, [], 0);
    assert Match(slots, live, 0) == [];
    assert Match(slots, live, 1) == [1];
    PickMeaning(slots[1], live, [1], 0);
    assert Match(slots, live, 2) == [1, 0];
    assert Rest([1, 0], 2) == [];
  }

  /** Each of the two merged entries recognises and agrees with the row of the other. */
  lemma PairSettles()
    ensures var slots, live := SlotPair(), SerialPair();
            var first, second := Combine(slots[0], live[1]), Combine(slots[1], live[0]);
            && Combine(first.(state := OFFLINE), live[0]) == first
            && Combine(second.(state := OFFLINE), live[1]) == second
            && SameCatalogDevice(first.(state := OFFLINE), live[0])
            && SameCatalogDevice(second.(state := OFFLINE), live[1])
  {
    hide SameCatalogDevice, EquivalentDeviceID, MergedAliases;
    var slots, live := SlotPair(), SerialPair();
    var first, second := Combine(slots[0], live[1]), Combine(slots[1], live[0]);
    assert Unique([]) == Without("a", []) == [];
    AgreesIff(first, live[0]);
    AgreesIff(second, live[1]);
    EquivalentIsEquivalence("a", "a", "a");
    SerialsRecognise(first, live[0]);
    SerialsRecognise(second, live[1]);
  }

  /** Rows that share a serial can trade places unseen: a slot is not steady, yet the second merge is silent. */
  lemma SharedSerialSwapIsSilent()
    ensures var slots, live := SlotPair(), SerialPair();
            && !AllSteady(slots, live)
            && MergedList(Stored(MergedList(slots, live)), live) == MergedList(slots, live)
  {
    hide SameCatalogDevice, Combine, MergedList, Match, Pick;
    var slots, live := SlotPair(), SerialPair();
    PairRelations();
    TwoSlotsCross(slots, live);
    assert !Steady(slots, live, 0);
    PairSettles();
    TwoSlotsTake(Stored(MergedList(slots, live)), live);
  }

  lemma SerialOfCombine(remembered: Device, current: Device)
    ensures Combine(remembered, current).id == current.id
  {
  }

  /** A slot recognises, offline, every row whose serial is equivalent to the one it took. */
  lemma RecognisesSerial(slot: Device, current: Device, other: Device)
    requires EquivalentDeviceID(current.id, other.id)
    ensures SameCatalogDevice(Combine(slot, current).(state := OFFLINE), other)
  {
    hide EquivalentDeviceID;
    var combined := Combine(slot, current).(state := OFFLINE);
    assert AllIDs(combined)[0] == current.id && AllIDs(other)[0] == other.id;
  }

  // ---------------------------------------------------------------- merging what was just returned

  lemma {:induction false} OwnRows(list: seq<Device>, live: seq<Device>, n: nat)
    requires n <= |list| && IsPrefix(list, live)
    ensures Match(Stored(list), live, n) == Indices(n)
  {
    hide SameCatalogDevice;
    if n == 0 {
    } else {
      OwnRows(list, live, n - 1);
      assert list[n - 1] == live[n - 1];
      InIndices(n - 1);
      AppendedTakesItself(live, Stored(list)[n - 1], n - 1, Indices(n - 1));
    }
  }

  function Indices(n: nat): seq<int> {
    seq(n, i => i)
  }

  lemma InIndices(n: nat)
    ensures forall j: int :: j in Indices(n) <==> 0 <= j < n
  {
    forall j: int | 0 <= j < n
      ensures j in Indices(n)
    {
      assert Indices(n)[j] == j;
    }
  }

  lemma {:induction false} RestOfIndices(n: nat, k: nat)
    requires n <= k
    ensures Rest(Indices(n), k) == seq(k - n, i requires 0 <= i < k - n => n + i)
  {
    if k == n {
      InIndices(n);
      RestEmpty(Indices(n), n);
    } else {
      RestOfIndices(n, k - 1);
    }
  }

  /**
   * Merging the list a merge returned, with any rows appended: every slot takes its own row, related or
   * not; nothing but an unclean alias list changes, and the appended rows follow as they are.
   */
  lemma RemergeKeepsRows(list: seq<Device>, live: seq<Device>, i: nat)
    requires IsPrefix(list, live) && i < |live|
    ensures |MergedList(Stored(list), live)| == |live|
    ensures MergedList(Stored(list), live)[i].(aliases := []) == live[i].(aliases := [])
    ensures MergedList(Stored(list), live)[i] == live[i] <==> |list| <= i || Clean(live[i].id, live[i].aliases)
  {
    hide SameCatalogDevice;
    OwnRows(list, live, |list|);
    RestOfIndices(|list|, |live|);
    if i < |list| {
      assert list[i] == live[i];
      MergedAliasesSelf(live[i].id, live[i].aliases);
    }
  }

  /** Remembering assignments after a listing keeps the listing and appends the serials nobody answered to. */
  lemma RememberAfterListing(slots: seq<Device>, rows: seq<Device>, ids: seq<string>, i: nat)
    ensures var list := MergedList(slots, rows);
            var live := WithAssignments(list, ids, |ids|);
            var result := MergedList(Stored(list), live);
            && IsPrefix(list, live) && |result| == |live|
            && (i < |live| ==>
                  && result[i].(aliases := []) == live[i].(aliases := [])
                  && (result[i] == live[i] <==> |list| <= i || Clean(live[i].id, live[i].aliases)))
  {
    hide MergedList, Stored, Clean;
    var list := MergedList(slots, rows);
    AssignmentsOnlyAppend(list, ids, |ids|);
    var live := WithAssignments(list, ids, |ids|);
    if i < |live| {
      RemergeKeepsRows(list, live, i);
    } else {
      RemergeLength(list, live);
    }
  }

  lemma RemergeLength(list: seq<Device>, live: seq<Device>)
    requires IsPrefix(list, live)
    ensures |MergedList(Stored(list), live)| == |live|
  {
    hide SameCatalogDevice;
    OwnRows(list, live, |list|);
    RestOfIndices(|list|, |live|);
  }

  // ---------------------------------------------------------------- assignments

  lemma AssignedIsKnown(devices: seq<Device>, id: string)
    ensures Known(devices + [AssignedRow(id)], id)
  {
    var row := (devices + [AssignedRow(id)])[|devices|];
    assert AllIDs(row)[0] == id && AllIDs(Probe(id))[0] == id;
    assert EquivalentDeviceID(id, id);
  }

  lemma KnownSurvives(devices: seq<Device>, row: Device, id: string)
    requires Known(devices, id)
    ensures Known(devices + [row], id)
  {
    var i :| 0 <= i < |devices| && SameCatalogDevice(devices[i], Probe(id));
    assert SameCatalogDevice((devices + [row])[i], Probe(id));
  }

  lemma AssignmentStep(devices: seq<Device>, ids: seq<string>, n: nat, id: string)
    requires 0 < n <= |ids|
    ensures Known(WithAssignments(devices, ids, n - 1), id) ==> Known(WithAssignments(devices, ids, n), id)
    ensures id == ids[n - 1] && !IsBlank(id) ==> Known(WithAssignments(devices, ids, n), id)
  {
    hide SameCatalogDevice, AssignedRow;
    var before := WithAssignments(devices, ids, n - 1);
    var row := AssignedRow(ids[n - 1]);
    AssignedIsKnown(before, ids[n - 1]);
    if Known(before, id) {
      KnownSurvives(before, row, id);
    }
  }

  lemma {:induction false} AssignmentsBecomeKnown(devices: seq<Device>, ids: seq<string>, n: nat, k: nat)
    requires k < n <= |ids| && !IsBlank(ids[k])
    ensures Known(WithAssignments(devices, ids, n), ids[k])
  {
    hide SameCatalogDevice, AssignedRow;
    AssignmentStep(devices, ids, n, ids[k]);
    if k < n - 1 {
      AssignmentsBecomeKnown(devices, ids, n - 1, k);
    }
  }

  /** The migration only appends, and only rows for non-blank serials nobody answered to. */
  lemma {:induction false} AssignmentsOnlyAppend(devices: seq<Device>, ids: seq<string>, n: nat)
    requires n <= |ids|
    ensures IsPrefix(devices, WithAssignments(devices, ids, n))
    ensures forall i | |devices| <= i < |WithAssignments(devices, ids, n)| ::
              WithAssignments(devices, ids, n)[i].id in ids
              && !IsBlank(WithAssignments(devices, ids, n)[i].id)
              && !Known(WithAssignments(devices, ids, n)[..i], WithAssignments(devices, ids, n)[i].id)
  {
    hide Known;
    if n == 0 {
    } else {
      AssignmentsOnlyAppend(devices, ids, n - 1);
      var before, after := WithAssignments(devices, ids, n - 1), WithAssignments(devices, ids, n);
      assert after[..|before|] == before;
      forall i | |devices| <= i < |after|
        ensures after[i].id in ids && !IsBlank(after[i].id) && !Known(after[..i], after[i].id)
      {
        if i < |before| {
          assert after[..i] == before[..i] && after[i] == before[i];
        } else {
          assert after[..i] == before;
        }
      }
    }
  }

  /** Every appended row in full: named by its serial, offline, without details. */
  lemma {:induction false} AppendedInFull(devices: seq<Device>, ids: seq<string>, n: nat, i: nat)
    requires n <= |ids| && |devices| <= i < |WithAssignments(devices, ids, n)|
    ensures var row := WithAssignments(devices, ids, n)[i];
            row == Device(
              row.id, row.id, "", "", "", "offline",
              if IsWirelessADBIdentity(row.id) then "wireless" else "usb", "", [])
  {
    hide Known, IsWirelessADBIdentity;
    if i < |WithAssignments(devices, ids, n - 1)| {
      AppendedInFull(devices, ids, n - 1, i);
    }
  }

  /** A serial is taken for a wireless one exactly if it holds a colon or one of ADB's two service types. */
  lemma WirelessIff(id: string)
    ensures IsWirelessADBIdentity(id) <==>
              || (exists i | 0 <= i < |id| :: id[i] == ':')
              || (exists before, after :: id == before + "._adb-tls-connect._tcp" + after)
              || (exists before, after :: id == before + "._adb._tcp" + after)
  {
    ContainsIff(id, ":");
    ContainsIff(id, "._adb-tls-connect._tcp");
    ContainsIff(id, "._adb._tcp");
    if i :| 0 <= i < |id| && id[i] == ':' {
      assert id == id[..i] + ":" + id[i + 1..];
    }
    if before, after :| id == before + ":" + after {
      assert id[|before|] == ':';
    }
  }

  /** An assigned serial is unknown exactly if no row has it, or an equivalent of it, among its names. */
  lemma KnownIff(devices: seq<Device>, id: string)
    ensures Known(devices, id) <==>
              exists i | 0 <= i < |devices| ::
                exists a | 0 <= a < |AllIDs(devices[i])| :: EquivalentDeviceID(AllIDs(devices[i])[a], id)
  {
    hide SameCatalogDevice, EquivalentDeviceID, AllIDs;
    forall i | 0 <= i < |devices|
      ensures SameCatalogDevice(devices[i], Probe(id)) <==>
                exists a | 0 <= a < |AllIDs(devices[i])| :: EquivalentDeviceID(AllIDs(devices[i])[a], id)
    {
      ProbeMatchesByName(devices[i], id);
    }
  }

  lemma ProbeMatchesByName(d: Device, id: string)
    ensures SameCatalogDevice(d, Probe(id)) <==> exists a | a in AllIDs(d) :: EquivalentDeviceID(a, id)
  {
    assert AllIDs(Probe(id)) == [id];
    if SameCatalogDevice(d, Probe(id)) {
      var a, b :| a in AllIDs(d) && b in AllIDs(Probe(id)) && EquivalentDeviceID(a, b);
      assert b == id;
    }
    if exists a | a in AllIDs(d) :: EquivalentDeviceID(a, id) {
      var a :| a in AllIDs(d) && EquivalentDeviceID(a, id);
      assert AllIDs(Probe(id))[0] == id;
    }
  }

  lemma OnlyEmptyMatchesEmpty(id: string)
    ensures EquivalentDeviceID("", id) <==> id == ""
  {
    assert !HasSuffix("", MDNS_SUFFIX);
  }

  /** A row that answers to all names of another one is recognised wherever the other one is. */
  lemma NamesCarryKnown(d: Device, richer: Device, id: string)
    requires Identities(d) <= Identities(richer) && id != "" && SameCatalogDevice(d, Probe(id))
    ensures SameCatalogDevice(richer, Probe(id))
  {
    ProbeMatchesByName(d, id);
    var a :| a in AllIDs(d) && EquivalentDeviceID(a, id);
    OnlyEmptyMatchesEmpty(id);
    assert a in Identities(d) && a in AllIDs(richer);
    ProbeMatchesByName(richer, id);
  }

  /** After the migration every assigned, non-blank serial is recognised by the returned directory. */
  lemma AssignmentsRemembered(slots: seq<Device>, rows: seq<Device>, ids: seq<string>, k: nat)
    requires k < |ids| && !IsBlank(ids[k])
    ensures Known(MergedList(slots, WithAssignments(rows, ids, |ids|)), ids[k])
  {
    hide SameCatalogDevice, MergedList;
    var live := WithAssignments(rows, ids, |ids|);
    AssignmentsBecomeKnown(rows, ids, |ids|, k);
    var j: nat :| j < |live| && SameCatalogDevice(live[j], Probe(ids[k]));
    LiveNamesSurvive(slots, live, j);
    var i: nat :| i < |MergedList(slots, live)| && Identities(live[j]) <= Identities(MergedList(slots, live)[i]);
    NamesCarryKnown(live[j], MergedList(slots, live)[i], ids[k]);
  }
}
