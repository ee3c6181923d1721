/**
 * When two ADB serials name the same wireless-debugging service.
 *
 * ADB appends a local " (n)" collision marker to an mDNS serial after a reconnect.  The web server
 * (Go) and the Core (Rust) each have their own normalisation; both induce an equivalence relation.
 */
module DeviceIdentity {
  import opened Common
  import opened Text

  const MDNS_SUFFIX := "._adb-tls-connect._tcp"

  /** The two characters " (" stand at position i. */
  predicate OpensAt(name: string, i: int) {
    0 <= i && i + 1 < |name| && name[i] == ' ' && name[i + 1] == '('
  }

  /** Position of the last " (" in name, or -1. */
  function LastOpening(name: string): (r: int)
    ensures -1 <= r < |name|
    ensures r >= 0 ==> OpensAt(name, r)
    ensures forall j :: r < j ==> !OpensAt(name, j)
  {
    if |name| < 2 then -1
    else if OpensAt(name, |name| - 2) then |name| - 2
    else
      var r := LastOpening(name[..|name| - 1]);
      assert forall j :: OpensAt(name, j) && j + 2 < |name| ==> OpensAt(name[..|name| - 1], j);
      r
  }

  /** name ends with an opening parenthesis group; its inside starts at the returned position. */
  predicate HasMarker(name: string) {
    var opening := LastOpening(name);
    opening >= 0 && name[|name| - 1] == ')'
    && name[opening + 2..|name| - 1] != "" && AllDigits(name[opening + 2..|name| - 1])
  }

  function StripMarker(name: string): string {
    if HasMarker(name) then name[..LastOpening(name)] else name
  }

  /** Go: the service name behind an mDNS serial, or "" when the serial is not an mDNS one. */
  function ServiceIdentity(id: string): string {
    if HasSuffix(id, MDNS_SUFFIX) then StripMarker(id[..|id| - |MDNS_SUFFIX|]) else ""
  }

  predicate EquivalentDeviceID(left: string, right: string) {
    left == right || (ServiceIdentity(left) != "" && ServiceIdentity(left) == ServiceIdentity(right))
  }

  /** The digit scan as the source runs it. */
  method NormalizedMDNSServiceIdentity(deviceID: string) returns (serviceName: string)
    ensures serviceName == ServiceIdentity(deviceID)
  {
    if !HasSuffix(deviceID, MDNS_SUFFIX) {
      return "";
    }
    serviceName := deviceID[..|deviceID| - |MDNS_SUFFIX|];
    var opening := LastOpening(serviceName);
    if opening >= 0 && HasSuffix(serviceName, ")") {
      var instance := serviceName[opening + 2..|serviceName| - 1];
      if instance != "" {
        var allDigits := true;
        var i := 0;
        while i < |instance|
          invariant 0 <= i <= |instance|
          invariant allDigits
          invariant forall k | 0 <= k < i :: IsDigit(instance[k])
        {
          if !IsDigit(instance[i]) {
            allDigits := false;
            break;
          }
          i := i + 1;
        }
        if allDigits {
          serviceName := serviceName[..opening];
        }
      }
    }
  }

  lemma EquivalentIsEquivalence(a: string, b: string, c: string)
    ensures EquivalentDeviceID(a, a)
    ensures EquivalentDeviceID(a, b) <==> EquivalentDeviceID(b, a)
    ensures EquivalentDeviceID(a, b) && EquivalentDeviceID(b, c) ==> EquivalentDeviceID(a, c)
  {
  }

  /** An independent reading of "ends with a collision marker". */
  ghost predicate EndsWithMarker(name: string) {
    exists base: string, n: string {:trigger base + " (" + n + ")"} ::
      n != "" && AllDigits(n) && name == base + " (" + n + ")"
  }

  /** The characters of a marked name, one by one. */
  lemma MarkedShape(name: string, n: string, marked: string)
    requires marked == name + " (" + n + ")"
    ensures |marked| == |name| + |n| + 3
    ensures marked[..|name|] == name
    ensures marked[|name| + 2..|marked| - 1] == n
    ensures OpensAt(marked, |name|) && marked[|marked| - 1] == ')'
  {
  }

  lemma MarkedOpening(name: string, n: string, marked: string)
    requires AllDigits(n) && marked == name + " (" + n + ")"
    ensures LastOpening(marked) == |name|
  {
    MarkedShape(name, n, marked);
    var inside := marked[|name| + 2..|marked| - 1];
    forall k | |name| + 2 <= k < |marked| - 1
      ensures IsDigit(marked[k])
    {
      assert marked[k] == inside[k - |name| - 2] && marked[k] in inside;
    }
  }

  /** Exactly one marker is removed, whatever the name in front of it looks like. */
  lemma StripRemovesOneMarker(name: string, n: string)
    requires n != "" && AllDigits(n)
    ensures HasMarker(name + " (" + n + ")")
    ensures StripMarker(name + " (" + n + ")") == name
  {
    var marked := name + " (" + n + ")";
    MarkedShape(name, n, marked);
    MarkedOpening(name, n, marked);
  }

  lemma HasMarkerMeaning(name: string)
    ensures HasMarker(name) <==> EndsWithMarker(name)
  {
    if HasMarker(name) {
      var opening := LastOpening(name);
      var n := name[opening + 2..|name| - 1];
      assert name == name[..opening] + " (" + n + ")";
    }
    if EndsWithMarker(name) {
      var base: string, n: string :| n != "" && AllDigits(n) && name == base + " (" + n + ")";
      StripRemovesOneMarker(base, n);
    }
  }

  lemma SuffixSplits(name: string)
    ensures HasSuffix(name + MDNS_SUFFIX, MDNS_SUFFIX)
    ensures (name + MDNS_SUFFIX)[..|name + MDNS_SUFFIX| - |MDNS_SUFFIX|] == name
  {
  }

  /**
   * A collision marker leaves a serial equivalent to itself exactly when the service name is
   * non-empty and does not already look marked.
   */
  lemma CollisionKeepsIdentity(name: string, n: string)
    requires n != "" && AllDigits(n)
    ensures EquivalentDeviceID(name + "._adb-tls-connect._tcp", name + " (" + n + ")" + "._adb-tls-connect._tcp")
            <==> name != "" && !EndsWithMarker(name)
  {
    SuffixSplits(name);
    SuffixSplits(name + " (" + n + ")");
    StripRemovesOneMarker(name, n);
    HasMarkerMeaning(name);
    assert |name + MDNS_SUFFIX| < |name + " (" + n + ")" + MDNS_SUFFIX|;
  }

  /** Only serials of the mDNS service name anything but themselves. */
  lemma OnlyServicesAreShared(id: string, other: string)
    requires EquivalentDeviceID(id, other) && id != other
    ensures exists name :: id == name + "._adb-tls-connect._tcp"
  {
    assert id == id[..|id| - |MDNS_SUFFIX|] + "._adb-tls-connect._tcp";
  }

  /** Rust: no identity at all for an unclosed " (" and for an empty unmarked name. */
  function RemoteServiceName(service: string): Option<string> {
    if LastOpening(service) >= 0 && service[|service| - 1] != ')' then None
    else if HasMarker(service) then Some(StripMarker(service))
    else if service != "" then Some(service)
    else None
  }

  function RemoteServiceIdentity(id: string): Option<string> {
    if HasSuffix(id, MDNS_SUFFIX) then RemoteServiceName(id[..|id| - |MDNS_SUFFIX|]) else None
  }

  predicate SameRemoteIdentity(left: string, right: string) {
    left == right || (RemoteServiceIdentity(left).Some? && RemoteServiceIdentity(left) == RemoteServiceIdentity(right))
  }

  lemma SameRemoteIsEquivalence(a: string, b: string, c: string)
    ensures SameRemoteIdentity(a, a)
    ensures SameRemoteIdentity(a, b) <==> SameRemoteIdentity(b, a)
    ensures SameRemoteIdentity(a, b) && SameRemoteIdentity(b, c) ==> SameRemoteIdentity(a, c)
  {
  }

  lemma RemoteIdentityOfMarked(name: string, n: string)
    requires n != "" && AllDigits(n)
    ensures RemoteServiceName(name + " (" + n + ")") == Some(name)
  {
    var marked := name + " (" + n + ")";
    MarkedShape(name, n, marked);
    MarkedOpening(name, n, marked);
  }

  lemma RemoteNameIsOwn(name: string)
    ensures RemoteServiceName(name) == Some(name)
            <==> name != "" && !EndsWithMarker(name) && (LastOpening(name) < 0 || name[|name| - 1] == ')')
  {
    HasMarkerMeaning(name);
  }

  /** The Core's relation obeys the same law, except that an unclosed parenthesis loses the identity too. */
  lemma RemoteCollisionKeepsIdentity(name: string, n: string, marked: string)
    requires n != "" && AllDigits(n) && marked == name + " (" + n + ")"
    ensures SameRemoteIdentity(name + "._adb-tls-connect._tcp", marked + "._adb-tls-connect._tcp")
            <==> name != "" && !EndsWithMarker(name) && (LastOpening(name) < 0 || name[|name| - 1] == ')')
  {
    MarkedShape(name, n, marked);
    RemoteIdentityOfMarked(name, n);
    SuffixSplits(name);
    SuffixSplits(marked);
    RemoteNameIsOwn(name);
  }
}
