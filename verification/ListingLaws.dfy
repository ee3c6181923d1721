/**
 * A listing as the web server runs it: the parsed rows are deduplicated by hardware key, and the result is
 * merged into the catalog.
 */
module ListingLaws {
  import opened Text
  import opened AliasLists
  import opened DeviceIdentity
  import opened Devices
  import opened DeviceDedupe
  import opened DeviceCatalog
  import opened CatalogLaws

  /** The list a listing returns; the catalog then stores it offline. */
  function Listing(slots: seq<Device>, rows: seq<Device>): seq<Device> {
    MergedList(slots, Deduped(rows))
  }

  /** What every row of the parser has: a serial, and no aliases yet. */
  ghost predicate AllListed(rows: seq<Device>) {
    forall p | 0 <= p < |rows| :: rows[p].id != "" && rows[p].aliases == []
  }

  /** Every name of a deduplicated row is the serial of an input row with the same key. */
  lemma NameIsSerial(rows: seq<Device>, i: nat, name: string)
    requires AllListed(rows) && i < |Deduped(rows)| && name in AllIDs(Deduped(rows)[i])
    ensures exists p | 0 <= p < |rows| :: rows[p].id == name && Key(rows[p]) == Key(Deduped(rows)[i])
  {
    hide Deduped, Key;
    DedupePartitions(rows, i);
    var entry := Deduped(rows)[i];
    var p: nat :| p < |rows| && Key(rows[p]) == Key(entry) && entry.(aliases := []) == rows[p].(aliases := [])
                  && (if OnlyRow(rows, |rows|, p) then entry == rows[p] else Clean(entry.id, entry.aliases));
    if name == entry.id {
      assert rows[p].id == name;
    } else {
      assert name in entry.aliases && name != "";
      assert name in NamesUnder(rows, |rows|, Key(entry));
      var q, v :| 0 <= q < |rows| && Key(rows[q]) == Key(entry) && v in Identities(rows[q]) && v == name;
      assert AllIDs(rows[q]) == [rows[q].id];
    }
  }

  /** The serial of every input row is a name of the deduplicated row of its key. */
  lemma SerialIsName(rows: seq<Device>, p: nat) returns (i: nat)
    requires AllListed(rows) && p < |rows|
    ensures i < |Deduped(rows)| && Key(Deduped(rows)[i]) == Key(rows[p])
    ensures rows[p].id in AllIDs(Deduped(rows)[i])
  {
    hide Deduped, Key;
    DedupeKeys(rows);
    assert Occurs(rows, |rows|, Key(rows[p]));
    i :| 0 <= i < |Deduped(rows)| && Key(Deduped(rows)[i]) == Key(rows[p]);
    DedupePartitions(rows, i);
    assert AllIDs(rows[p])[0] == rows[p].id && rows[p].id in Identities(rows[p]);
    assert rows[p].id in NamesUnder(rows, |rows|, Key(rows[p]));
  }

  /** Rows whose serials name the same wireless service were given the same key. */
  ghost predicate KeysFollowSerials(rows: seq<Device>) {
    forall p, q | 0 <= p < |rows| && 0 <= q < |rows| ::
      EquivalentDeviceID(rows[p].id, rows[q].id) ==> Key(rows[p]) == Key(rows[q])
  }

  lemma DifferentHardware(rows: seq<Device>, i: nat, j: nat)
    requires i < |Deduped(rows)| && j < |Deduped(rows)| && i != j
    ensures Key(Deduped(rows)[i]) != Key(Deduped(rows)[j])
    ensures !SameHardware(Deduped(rows)[i], Deduped(rows)[j])
  {
    hide Deduped;
    DedupeKeys(rows);
    assert Key(Deduped(rows)[i]) != Key(Deduped(rows)[j]);
  }

  /** No two cards of a listing recognise each other exactly when equivalent serials have equal keys. */
  lemma CardsUnrelatedIff(rows: seq<Device>)
    requires AllListed(rows)
    ensures PairwiseUnrelated(Deduped(rows)) <==> KeysFollowSerials(rows)
  {
    hide Deduped, Key, EquivalentDeviceID, AllIDs;
    var cards := Deduped(rows);
    forall i, j | KeysFollowSerials(rows) && 0 <= i < |cards| && 0 <= j < |cards| && i != j
      ensures !SameCatalogDevice(cards[i], cards[j])
    {
      DifferentHardware(rows, i, j);
      if SameNames(cards[i], cards[j]) {
        var a, b :| a in AllIDs(cards[i]) && b in AllIDs(cards[j]) && EquivalentDeviceID(a, b);
        NameIsSerial(rows, i, a);
        NameIsSerial(rows, j, b);
      }
    }
    forall p: nat, q: nat | PairwiseUnrelated(cards) && p < |rows| && q < |rows|
      ensures EquivalentDeviceID(rows[p].id, rows[q].id) ==> Key(rows[p]) == Key(rows[q])
    {
      var i := SerialIsName(rows, p);
      var j := SerialIsName(rows, q);
      assert i != j ==> !SameNames(cards[i], cards[j]);
    }
  }

  lemma CardsHaveDistinctSerials(rows: seq<Device>)
    requires DistinctSerials(rows)
    ensures DistinctSerials(Deduped(rows))
  {
    hide Deduped, Key;
    forall i, j | 0 <= i < j < |Deduped(rows)|
      ensures Deduped(rows)[i].id != Deduped(rows)[j].id
    {
      DifferentHardware(rows, i, j);
      DedupePartitions(rows, i);
      DedupePartitions(rows, j);
      var p: nat :| p < |rows| && Key(rows[p]) == Key(Deduped(rows)[i])
                    && Deduped(rows)[i].(aliases := []) == rows[p].(aliases := []);
      var q: nat :| q < |rows| && Key(rows[q]) == Key(Deduped(rows)[j])
                    && Deduped(rows)[j].(aliases := []) == rows[q].(aliases := []);
      assert rows[p].id != rows[q].id;
    }
  }

  /** Whatever was parsed, the cards of a listing have clean alias lists. */
  lemma CardsAreClean(rows: seq<Device>, i: nat)
    requires AllListed(rows) && i < |Deduped(rows)|
    ensures Clean(Deduped(rows)[i].id, Deduped(rows)[i].aliases)
  {
    hide Deduped, Key;
    DedupePartitions(rows, i);
  }

  /** No slot remembers as its name the serial of a nameless card it took. */
  ghost predicate NamesKept(slots: seq<Device>, live: seq<Device>) {
    forall i: nat | i < |slots| ::
      Origin(slots, live, i) < |live|
      && (Origin(slots, live, i) >= 0 ==> !NameLost(slots[i], live[Origin(slots, live, i)]))
  }

  lemma StableIsNamesKept(slots: seq<Device>, rows: seq<Device>)
    requires AllListed(rows)
    ensures Stable(slots, Deduped(rows)) <==> NamesKept(slots, Deduped(rows))
  {
    hide Deduped, NameLost, MergedList, Origin, AllListed;
    var live := Deduped(rows);
    forall i: nat | |slots| <= i < |MergedList(slots, live)|
      ensures StableAt(slots, live, i)
    {
      OriginMeaning(slots, live, i);
      CardsAreClean(rows, Origin(slots, live, i));
    }
    forall i: nat | i < |slots|
      ensures StableAt(slots, live, i)
              <==> Origin(slots, live, i) < |live|
                   && (Origin(slots, live, i) >= 0 ==> !NameLost(slots[i], live[Origin(slots, live, i)]))
    {
    }
  }

  /**
   * Listing the same rows twice, if equivalent serials have equal keys: silent exactly when every slot keeps its
   * name.  Without that condition, and if no serial is listed twice, the slots must be steady as well.
   */
  lemma ListingTwiceIff(slots: seq<Device>, rows: seq<Device>)
    requires AllListed(rows)
    ensures var list := Listing(slots, rows);
            var silent := Listing(Stored(list), rows) == list;
            && (KeysFollowSerials(rows) || AllSteady(slots, Deduped(rows)) ==>
                  (silent <==> NamesKept(slots, Deduped(rows))))
            && (DistinctSerials(rows) ==>
                  (silent <==> AllSteady(slots, Deduped(rows)) && NamesKept(slots, Deduped(rows))))
  {
    hide Deduped, AllSteady, NamesKept, Stable, MergedList, Stored, KeysFollowSerials, PairwiseUnrelated, Settled;
    hide DistinctSerials;
    StableIsNamesKept(slots, rows);
    MergeIdempotentIff(slots, Deduped(rows));
    CardsUnrelatedIff(rows);
    if KeysFollowSerials(rows) {
      MergeUnrelatedIff(slots, Deduped(rows));
    }
    if DistinctSerials(rows) {
      CardsHaveDistinctSerials(rows);
    }
  }

  /** The two rows that trade places survive the deduplication, so a listing as it runs shows the exchange. */
  lemma ListingSwaps(name: string, n: string)
    requires name != "" && !EndsWithMarker(name) && n != "" && AllDigits(n)
    ensures var rows := TwoRows(name, n);
            var list := Listing([Remembered()], rows);
            var again := Listing(Stored(list), rows);
            && AllListed(rows) && DistinctSerials(rows)
            && |list| == |again| == 2
            && list[0].id == again[1].id && list[1].id == again[0].id && list[0].id != list[1].id
  {
    hide MergedList, EndsWithMarker, Keys, MergeKey, SameCatalogDevice;
    var rows := TwoRows(name, n);
    RelatedRowsSwap(name, n);
    assert rows[0].hardwareID[0] == 'm' && rows[1].hardwareID[0] == 's';
    assert Key(rows[0]) != Key(rows[1]);
    DistinctRepresentThemselves(rows, 2);
    assert Deduped(rows) == rows;
    assert |rows[0].id| < |rows[1].id|;
  }
}
