/**
 * One card per handset: rows that share a hardware key are merged into one.
 *
 * The loop updates a result slice through an index map.  It is proved against a specification that
 * reads the first n rows once per key, and that specification is proved to partition the rows.
 */
module DeviceDedupe {
  import opened AliasLists
  import opened Devices

  function Key(d: Device): string {
    if d.hardwareID == "" then "transport:" + d.id else d.hardwareID
  }

  /** Rows share a card exactly if they have one hardware key, or none and one serial; or one's key is spelt so. */
  lemma SameKeyIff(a: Device, b: Device)
    ensures Key(a) == Key(b) <==>
              || (a.hardwareID == b.hardwareID && (a.hardwareID == "" ==> a.id == b.id))
              || (a.hardwareID == "" && b.hardwareID == "transport:" + a.id)
              || (b.hardwareID == "" && a.hardwareID == "transport:" + b.id)
  {
    assert |"transport:"| == 10;
    assert Key(a) == "transport:" + a.id ==> Key(a)[10..] == a.id;
    assert Key(b) == "transport:" + b.id ==> Key(b)[10..] == b.id;
  }

  /** The distinct keys of the first n rows in order of first occurrence. */
  function Keys(devices: seq<Device>, n: nat): seq<string>
    requires n <= |devices|
  {
    if n == 0 then []
    else
      var before := Keys(devices, n - 1);
      if Key(devices[n - 1]) in before then before else before + [Key(devices[n - 1])]
  }

  /** Later rows only add keys at the end: a key stands where its first row put it. */
  lemma {:induction false} KeysGrow(devices: seq<Device>, n: nat, m: nat)
    requires n <= m <= |devices|
    ensures Keys(devices, n) <= Keys(devices, m)
    ensures m == n + 1 && Key(devices[n]) !in Keys(devices, n) ==>
              Keys(devices, m) == Keys(devices, n) + [Key(devices[n])]
  {
    if n == m {
    } else {
      KeysGrow(devices, n, m - 1);
    }
  }

  /** One row absorbs another; the preferred one of the two becomes the primary. */
  function Absorb(kept: Device, candidate: Device): Device {
    var grown := kept.(aliases := MergedAliases(kept.id, kept.aliases, candidate.id, candidate.aliases));
    if ShouldPrefer(candidate, grown)
    then candidate.(aliases := MergedAliases(candidate.id, candidate.aliases, grown.id, grown.aliases))
    else grown
  }

  /** The row a key ends up with: its rows absorbed from left to right. */
  function MergeKey(devices: seq<Device>, n: nat, key: string): Device
    requires n <= |devices| && key in Keys(devices, n)
  {
    var last := devices[n - 1];
    if Key(last) != key then MergeKey(devices, n - 1, key)
    else if key in Keys(devices, n - 1) then Absorb(MergeKey(devices, n - 1, key), last)
    else last
  }

  function Deduped(devices: seq<Device>): (result: seq<Device>)
    ensures |result| == |Keys(devices, |devices|)|
  {
    var keys := Keys(devices, |devices|);
    seq(|keys|, i requires 0 <= i < |keys| => MergeKey(devices, |devices|, keys[i]))
  }

  /** Row i of result is what the i-th key of the first n rows ends up with. */
  ghost predicate Represents(result: seq<Device>, devices: seq<Device>, n: nat)
    requires n <= |devices|
  {
    && |result| == |Keys(devices, n)|
    && forall i | 0 <= i < |result| :: result[i] == MergeKey(devices, n, Keys(devices, n)[i])
  }

  ghost predicate Indexes(indexByHardwareID: map<string, nat>, keys: seq<string>) {
    && (forall k :: k in indexByHardwareID <==> k in keys)
    && (forall k | k in indexByHardwareID :: indexByHardwareID[k] < |keys| && keys[indexByHardwareID[k]] == k)
  }

  /** The merge of two rows as the loop body performs it. */
  method MergeRows(keptRow: Device, candidate: Device) returns (merged: Device)
    ensures merged == Absorb(keptRow, candidate)
  {
    var aliases := AppendUnique(keptRow.aliases, [candidate.id]);
    aliases := AppendUnique(aliases, candidate.aliases);
    aliases := AliasesWithoutPrimary(keptRow.id, aliases);
    var kept := keptRow.(aliases := aliases);
    if ShouldPrefer(candidate, kept) {
      UniqueOfUnique(candidate.aliases + [kept.id], kept.aliases);
      aliases := AppendUnique(candidate.aliases + [kept.id], kept.aliases);
      aliases := AliasesWithoutPrimary(candidate.id, aliases);
      merged := candidate.(aliases := aliases);
    } else {
      merged := kept;
    }
  }

  method DedupeDevicesByHardwareID(devices: seq<Device>) returns (result: seq<Device>)
    ensures result == Deduped(devices)
  {
    result := [];
    var indexByHardwareID: map<string, nat> := map[];
    var n := 0;
    while n < |devices|
      invariant 0 <= n <= |devices|
      invariant Represents(result, devices, n)
      invariant Indexes(indexByHardwareID, Keys(devices, n))
    {
      var candidate := devices[n];
      var key := candidate.hardwareID;
      if key == "" {
        key := "transport:" + candidate.id;
      }
      if key in indexByHardwareID {
        var index := indexByHardwareID[key];
        var merged := MergeRows(result[index], candidate);
        RepeatedKeyUpdates(result, devices, n, index);
        result := result[index := merged];
      } else {
        NewKeyAppends(result, devices, n);
        indexByHardwareID := indexByHardwareID[key := |result|];
        result := result + [candidate];
      }
      n := n + 1;
    }
  }

  lemma NewKeyAppends(result: seq<Device>, devices: seq<Device>, n: nat)
    requires n < |devices| && Represents(result, devices, n) && Key(devices[n]) !in Keys(devices, n)
    ensures Keys(devices, n + 1) == Keys(devices, n) + [Key(devices[n])]
    ensures Represents(result + [devices[n]], devices, n + 1)
  {
    var keys := Keys(devices, n);
    assert forall i | 0 <= i < |keys| :: keys[i] in keys && keys[i] != Key(devices[n]);
  }

  lemma RepeatedKeyUpdates(result: seq<Device>, devices: seq<Device>, n: nat, index: nat)
    requires n < |devices| && Represents(result, devices, n)
    requires index < |result| && Keys(devices, n)[index] == Key(devices[n])
    ensures Keys(devices, n + 1) == Keys(devices, n)
    ensures Represents(result[index := Absorb(result[index], devices[n])], devices, n + 1)
  {
    KeysDistinct(devices, n);
    var keys := Keys(devices, n);
    assert keys[index] in keys;
    forall i | 0 <= i < |keys|
      ensures MergeKey(devices, n + 1, keys[i]) == if i == index then Absorb(result[i], devices[n]) else result[i]
    {
      assert keys[i] in keys;
    }
  }

  ghost predicate Occurs(devices: seq<Device>, n: nat, key: string)
    requires n <= |devices|
  {
    exists p | 0 <= p < n :: Key(devices[p]) == key
  }

  lemma {:induction false} KeysOccur(devices: seq<Device>, n: nat, key: string)
    requires n <= |devices|
    ensures key in Keys(devices, n) <==> Occurs(devices, n, key)
  {
    if n == 0 {
    } else {
      KeysOccur(devices, n - 1, key);
      if Key(devices[n - 1]) == key {
        assert Occurs(devices, n, key);
      }
    }
  }

  lemma {:induction false} KeysDistinct(devices: seq<Device>, n: nat)
    requires n <= |devices|
    ensures Distinct(Keys(devices, n))
  {
    if n == 0 {
    } else {
      KeysDistinct(devices, n - 1);
    }
  }

  /** Names of those of the first n rows that carry a key. */
  ghost function NamesUnder(devices: seq<Device>, n: nat, key: string): set<string>
    requires n <= |devices|
  {
    set p, v | 0 <= p < n && Key(devices[p]) == key && v in Identities(devices[p]) :: v
  }

  lemma NamesUnderStep(devices: seq<Device>, n: nat, key: string)
    requires 0 < n <= |devices|
    ensures NamesUnder(devices, n, key)
            == NamesUnder(devices, n - 1, key) + if Key(devices[n - 1]) == key then Identities(devices[n - 1]) else {}
  {
  }

  lemma AbsorbKeepsNames(kept: Device, candidate: Device)
    ensures Identities(Absorb(kept, candidate)) == Identities(kept) + Identities(candidate)
    ensures Clean(Absorb(kept, candidate).id, Absorb(kept, candidate).aliases)
  {
    var grown := kept.(aliases := MergedAliases(kept.id, kept.aliases, candidate.id, candidate.aliases));
    MergedAliasesNames(kept.id, kept.aliases, candidate.id, candidate.aliases);
    MergedAliasesNames(candidate.id, candidate.aliases, grown.id, grown.aliases);
  }

  /** A merged row carries its key and exactly the names of its rows. */
  lemma {:induction false} MergeKeepsNames(devices: seq<Device>, n: nat, key: string)
    requires n <= |devices| && key in Keys(devices, n)
    ensures Identities(MergeKey(devices, n, key)) == NamesUnder(devices, n, key)
    ensures Key(MergeKey(devices, n, key)) == key
  {
    NamesUnderStep(devices, n, key);
    if key in Keys(devices, n - 1) {
      MergeKeepsNames(devices, n - 1, key);
      AbsorbKeepsNames(MergeKey(devices, n - 1, key), devices[n - 1]);
    } else {
      KeysOccur(devices, n - 1, key);
      assert NamesUnder(devices, n - 1, key) == {};
    }
  }

  /** Position of the row whose fields the key's result carries. */
  function Primary(devices: seq<Device>, n: nat, key: string): (p: nat)
    requires n <= |devices| && key in Keys(devices, n)
    ensures p < n && Key(devices[p]) == key
  {
    if Key(devices[n - 1]) != key then Primary(devices, n - 1, key)
    else if key in Keys(devices, n - 1) && !ShouldPrefer(devices[n - 1], devices[Primary(devices, n - 1, key)])
    then Primary(devices, n - 1, key)
    else n - 1
  }

  ghost predicate OnlyRow(devices: seq<Device>, n: nat, p: nat)
    requires p < n <= |devices|
  {
    forall q | 0 <= q < n && Key(devices[q]) == Key(devices[p]) :: q == p
  }

  /** Absorbing a row keeps one of the two rows' other fields, as the preference decides. */
  lemma AbsorbKeepsFields(kept: Device, candidate: Device, primary: Device)
    requires kept.(aliases := []) == primary.(aliases := [])
    ensures Absorb(kept, candidate).(aliases := [])
            == (if ShouldPrefer(candidate, primary) then candidate else primary).(aliases := [])
  {
    hide MergedAliases;
  }

  lemma OnlyRowStep(devices: seq<Device>, n: nat, p: nat)
    requires p + 1 < n <= |devices|
    ensures OnlyRow(devices, n, p) <==> OnlyRow(devices, n - 1, p) && Key(devices[n - 1]) != Key(devices[p])
  {
  }

  /** The other fields are those of one input row; a lone row is passed through untouched. */
  lemma {:induction false} MergeCarriesPrimary(devices: seq<Device>, n: nat, key: string)
    requires n <= |devices| && key in Keys(devices, n)
    ensures MergeKey(devices, n, key).(aliases := []) == devices[Primary(devices, n, key)].(aliases := [])
    ensures if OnlyRow(devices, n, Primary(devices, n, key))
            then MergeKey(devices, n, key) == devices[Primary(devices, n, key)]
            else Clean(MergeKey(devices, n, key).id, MergeKey(devices, n, key).aliases)
  {
    hide Absorb, Key, ShouldPrefer, Clean, OnlyRow;
    if key in Keys(devices, n - 1) {
      MergeCarriesPrimary(devices, n - 1, key);
      var p := Primary(devices, n - 1, key);
      OnlyRowStep(devices, n, p);
      if Key(devices[n - 1]) == key {
        AbsorbKeepsNames(MergeKey(devices, n - 1, key), devices[n - 1]);
        AbsorbKeepsFields(MergeKey(devices, n - 1, key), devices[n - 1], devices[p]);
        NotOnlyRow(devices, n, p, n - 1);
      }
    } else {
      KeysOccur(devices, n - 1, key);
      OnlyRowHere(devices, n);
    }
  }

  lemma NotOnlyRow(devices: seq<Device>, n: nat, p: nat, q: nat)
    requires p < n <= |devices| && q < n && p != q && Key(devices[p]) == Key(devices[q])
    ensures !OnlyRow(devices, n, p) && !OnlyRow(devices, n, q)
  {
  }

  lemma OnlyRowHere(devices: seq<Device>, n: nat)
    requires 0 < n <= |devices| && !Occurs(devices, n - 1, Key(devices[n - 1]))
    ensures OnlyRow(devices, n, n - 1)
  {
  }

  /** Rows of one key among the first n that beat row p. */
  ghost predicate Undominated(devices: seq<Device>, n: nat, p: nat)
    requires p < n <= |devices|
  {
    forall q | 0 <= q < n && Key(devices[q]) == Key(devices[p]) :: !ShouldPrefer(devices[q], devices[p])
  }

  /** No row of the key is preferred over the primary, whatever the transports are called. */
  lemma {:induction false} PrimaryUndominated(devices: seq<Device>, n: nat, key: string)
    requires n <= |devices| && key in Keys(devices, n)
    ensures Undominated(devices, n, Primary(devices, n, key))
    ensures forall q | 0 <= q < Primary(devices, n, key) && Key(devices[q]) == key && devices[q].state == ONLINE ::
              devices[Primary(devices, n, key)].transport == "usb"
  {
    if key in Keys(devices, n - 1) {
      PrimaryUndominated(devices, n - 1, key);
    } else {
      KeysOccur(devices, n - 1, key);
    }
  }

  /** The two transports the row parser produces. */
  predicate Parsed(d: Device) {
    d.transport == "usb" || d.transport == "wireless"
  }

  function Rank(d: Device): nat {
    (if d.state == "device" then 2 else 0) + (if d.transport == "usb" then 1 else 0)
  }

  lemma PreferenceIsRank(a: Device, b: Device)
    requires Parsed(a) && Parsed(b)
    ensures ShouldPrefer(a, b) <==> Rank(a) > Rank(b)
  {
  }

  /** Row p is of maximal rank among the first n rows of its key, and it is the first such row. */
  ghost predicate FirstOfBest(devices: seq<Device>, n: nat, p: nat)
    requires p < n <= |devices|
  {
    forall q | 0 <= q < n && Key(devices[q]) == Key(devices[p]) ::
      if q < p then Rank(devices[q]) < Rank(devices[p]) else Rank(devices[q]) <= Rank(devices[p])
  }

  ghost predicate AllParsed(devices: seq<Device>) {
    forall p | 0 <= p < |devices| :: Parsed(devices[p])
  }

  /** Online before offline, then wired before wireless, then the earlier row. */
  lemma {:induction false} PrimaryIsFirstOfBest(devices: seq<Device>, n: nat, key: string)
    requires n <= |devices| && key in Keys(devices, n) && AllParsed(devices)
    ensures FirstOfBest(devices, n, Primary(devices, n, key))
  {
    hide ShouldPrefer, Rank;
    if key in Keys(devices, n - 1) {
      PrimaryIsFirstOfBest(devices, n - 1, key);
      var p := Primary(devices, n - 1, key);
      PreferenceIsRank(devices[n - 1], devices[p]);
      if Key(devices[n - 1]) == key && ShouldPrefer(devices[n - 1], devices[p]) {
        assert FirstOfBest(devices, n, n - 1);
      } else {
        assert FirstOfBest(devices, n, p);
      }
    } else {
      KeysOccur(devices, n - 1, key);
    }
  }

  /** With a third transport the first undominated row can lose its place to a later one. */
  lemma FirstUndominatedNeedsParsedRows()
    ensures exists devices: seq<Device> ::
              |devices| == 3 && "k" in Keys(devices, 3) && Primary(devices, 3, "k") == 2 && Undominated(devices, 3, 1)
  {
    var devices := [Row("a", "k").(transport := "wireless"), Row("b", "k").(transport := "proxy"), Row("c", "k")];
    assert Keys(devices, 1) == ["k"];
    assert Keys(devices, 2) == ["k"];
    assert Primary(devices, 1, "k") == 0;
    assert Primary(devices, 2, "k") == 0;
    assert Primary(devices, 3, "k") == 2;
    assert Undominated(devices, 3, 1);
  }

  /** The keys of the result are those of the input, each once. */
  lemma DedupeKeys(devices: seq<Device>)
    ensures forall i | 0 <= i < |Deduped(devices)| :: Key(Deduped(devices)[i]) == Keys(devices, |devices|)[i]
    ensures DistinctKeys(Deduped(devices))
    ensures forall key :: Occurs(devices, |devices|, key) <==> Occurs(Deduped(devices), |Deduped(devices)|, key)
  {
    var n := |devices|;
    forall i | 0 <= i < |Deduped(devices)|
      ensures Key(Deduped(devices)[i]) == Keys(devices, n)[i]
    {
      MergeKeepsNames(devices, n, Keys(devices, n)[i]);
    }
    KeysDistinct(devices, n);
    forall key
      ensures Occurs(devices, n, key) <==> Occurs(Deduped(devices), |Deduped(devices)|, key)
    {
      KeysOccur(devices, n, key);
    }
  }

  /** The result is a partition of the input by key, and each class is represented faithfully. */
  lemma DedupePartitions(devices: seq<Device>, i: nat)
    requires i < |Deduped(devices)|
    ensures Identities(Deduped(devices)[i]) == NamesUnder(devices, |devices|, Key(Deduped(devices)[i]))
    ensures exists p: nat | p < |devices| ::
              && Key(devices[p]) == Key(Deduped(devices)[i])
              && Undominated(devices, |devices|, p)
              && Deduped(devices)[i].(aliases := []) == devices[p].(aliases := [])
              && (if OnlyRow(devices, |devices|, p) then Deduped(devices)[i] == devices[p]
                  else Clean(Deduped(devices)[i].id, Deduped(devices)[i].aliases))
  {
    var n, key := |devices|, Keys(devices, |devices|)[i];
    MergeKeepsNames(devices, n, key);
    MergeCarriesPrimary(devices, n, key);
    PrimaryUndominated(devices, n, key);
    assert Key(devices[Primary(devices, n, key)]) == Key(Deduped(devices)[i]);
  }

  ghost predicate DistinctKeys(devices: seq<Device>) {
    forall p, q | 0 <= p < q < |devices| :: Key(devices[p]) != Key(devices[q])
  }

  lemma {:induction false} DistinctRepresentThemselves(devices: seq<Device>, n: nat)
    requires n <= |devices| && DistinctKeys(devices)
    ensures |Keys(devices, n)| == n
    ensures forall i | 0 <= i < n :: Keys(devices, n)[i] == Key(devices[i])
    ensures forall i | 0 <= i < n :: MergeKey(devices, n, Keys(devices, n)[i]) == devices[i]
  {
    hide Key, Absorb;
    if n == 0 {
    } else {
      DistinctRepresentThemselves(devices, n - 1);
      KeysOccur(devices, n - 1, Key(devices[n - 1]));
      forall i | 0 <= i < n
        ensures MergeKey(devices, n, Keys(devices, n)[i]) == devices[i]
      {
      }
    }
  }

  /** A second pass finds nothing to merge. */
  lemma DedupeIdempotent(devices: seq<Device>)
    ensures Deduped(Deduped(devices)) == Deduped(devices)
  {
    DedupeKeys(devices);
    DistinctRepresentThemselves(Deduped(devices), |Deduped(devices)|);
  }
}
