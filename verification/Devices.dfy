/** Rows of the device directory and the relation that recognises a remembered device. */
module Devices {
  import opened AliasLists
  import opened DeviceIdentity

  datatype Device = Device(
    id: string, name: string, remark: string, model: string, product: string,
    state: string, transport: string, hardwareID: string, aliases: seq<string>)

  const ONLINE := "device"
  const OFFLINE := "offline"

  function AllIDs(d: Device): seq<string> {
    [d.id] + d.aliases
  }

  /** The non-empty names a row answers to. */
  ghost function Identities(d: Device): set<string> {
    Elements(AllIDs(d)) - {""}
  }

  predicate SameHardware(left: Device, right: Device) {
    left.hardwareID != "" && left.hardwareID == right.hardwareID
  }

  predicate SameNames(left: Device, right: Device) {
    exists a, b | a in AllIDs(left) && b in AllIDs(right) :: EquivalentDeviceID(a, b)
  }

  predicate SameCatalogDevice(left: Device, right: Device) {
    SameHardware(left, right) || SameNames(left, right)
  }

  lemma SameCatalogSymmetric(left: Device, right: Device)
    ensures SameCatalogDevice(left, right) <==> SameCatalogDevice(right, left)
  {
    forall l, r | SameNames(l, r)
      ensures SameNames(r, l)
    {
      var a, b :| a in AllIDs(l) && b in AllIDs(r) && EquivalentDeviceID(a, b);
      EquivalentIsEquivalence(a, b, a);
      assert EquivalentDeviceID(b, a);
    }
  }

  lemma SameCatalogReflexive(d: Device)
    ensures SameCatalogDevice(d, d)
  {
    assert AllIDs(d)[0] == d.id && EquivalentDeviceID(d.id, d.id);
  }

  function Row(id: string, hardwareID: string): Device {
    Device(id, id, "", "", "", ONLINE, "usb", hardwareID, [])
  }

  /** A row can match two rows that do not match each other. */
  lemma SameCatalogNotTransitive()
    ensures var a, b, c := Row("a", "serial:1"), Row("b", "serial:1").(aliases := ["c"]), Row("c", "serial:2");
            SameCatalogDevice(a, b) && SameCatalogDevice(b, c) && !SameCatalogDevice(a, c)
  {
    var b, c := Row("b", "serial:1").(aliases := ["c"]), Row("c", "serial:2");
    assert AllIDs(b)[1] == "c" && AllIDs(c)[0] == "c" && EquivalentDeviceID("c", "c");
    assert !EquivalentDeviceID("a", "c");
  }

  /** The web server prefers an online row, then a wired one. */
  predicate ShouldPrefer(candidate: Device, current: Device) {
    if candidate.state == ONLINE && current.state != ONLINE then true
    else if candidate.state != ONLINE && current.state == ONLINE then false
    else candidate.transport == "usb" && current.transport == "wireless"
  }
}
