/**
 * Certificate trust of Companion devices: short-code pairing, revocation, expiry, and the trust file.
 *
 * Times are milliseconds.  Pairing identifiers and short codes, random in the program, are parameters.
 */
module CompanionTrust {
  import opened Common
  import opened Text

  const SCHEMA_VERSION: nat := 1
  const PAIRING_TTL: nat := 5 * 60 * 1000
  const TRUST_TTL: nat := 30 * 24 * 60 * 60 * 1000
  const MAX_ATTEMPTS: nat := 5

  datatype Request = Request(deviceId: string, deviceName: string, fingerprint: string)

  datatype Challenge = Challenge(
    pairingId: string, deviceId: string, deviceName: string, fingerprint: string, shortCode: string,
    createdAt: nat, expiresAt: nat, attemptsRemaining: nat)

  datatype Trusted = Trusted(
    deviceId: string, deviceName: string, fingerprint: string,
    trustedAt: nat, expiresAt: nat, revokedAt: Option<nat>)

  datatype Store = Store(pending: map<string, Challenge>, trusted: map<string, Trusted>)

  /** The trust file as the loader finds it. */
  datatype File = Missing | Unreadable | Malformed | Parsed(schemaVersion: nat, devices: seq<Trusted>)

  const EMPTY := Store(map[], map[])

  // ---------------------------------------------------------------- fingerprints

  predicate IsSeparator(c: char) {
    c == ':' || c == ' ' || c == '\t' || c == '\n' || c == '\U{C}' || c == '\r'
  }

  function Lower(c: char): char {
    if 'A' <= c <= 'Z' then c - 'A' + 'a' else c
  }

  predicate IsHexDigit(c: char) {
    '0' <= c <= '9' || 'a' <= c <= 'f' || 'A' <= c <= 'F'
  }

  function Normalize(fingerprint: string): string {
    if fingerprint == "" then ""
    else if IsSeparator(fingerprint[0]) then Normalize(fingerprint[1..])
    else [Lower(fingerprint[0])] + Normalize(fingerprint[1..])
  }

  predicate ValidFingerprint(fingerprint: string) {
    var normalized := Normalize(fingerprint);
    |normalized| == 64 && forall c | c in normalized :: IsHexDigit(c)
  }

  lemma {:induction false} NormalizeIdempotent(fingerprint: string)
    ensures Normalize(Normalize(fingerprint)) == Normalize(fingerprint)
  {
    if fingerprint == "" {
    } else {
      NormalizeIdempotent(fingerprint[1..]);
    }
  }

  /** Colon, space, tab, line feed, form feed and carriage return, by code point. */
  predicate Separating(c: char) {
    c as int in {58, 32, 9, 10, 12, 13}
  }

  /** The characters of a fingerprint that do not separate, in order. */
  function Kept(fingerprint: string): string {
    if fingerprint == "" then ""
    else (if Separating(fingerprint[0]) then "" else [fingerprint[0]]) + Kept(fingerprint[1..])
  }

  /** The same character, or the two cases of one ASCII letter. */
  predicate SameUpToCase(c: char, d: char) {
    || c == d
    || (65 <= c as int <= 90 && d as int == c as int + 32)
    || (65 <= d as int <= 90 && c as int == d as int + 32)
  }

  /** Two spellings of one fingerprint. */
  predicate SameFingerprint(a: string, b: string) {
    |Kept(a)| == |Kept(b)| && forall i | 0 <= i < |Kept(a)| :: SameUpToCase(Kept(a)[i], Kept(b)[i])
  }

  predicate HexCode(code: int) {
    48 <= code <= 57 || 97 <= code <= 102 || 65 <= code <= 70
  }

  /** A SHA-256 fingerprint: 64 hexadecimal digits between separators. */
  predicate IsSha256(fingerprint: string) {
    |Kept(fingerprint)| == 64 && forall i | 0 <= i < 64 :: HexCode(Kept(fingerprint)[i] as int)
  }

  lemma CharacterIff(c: char, d: char)
    ensures IsSeparator(c) <==> Separating(c)
    ensures Lower(c) == Lower(d) <==> SameUpToCase(c, d)
    ensures IsHexDigit(Lower(c)) <==> HexCode(c as int)
  {
    assert ':' as int == 58 && ' ' as int == 32 && '\t' as int == 9 && '\n' as int == 10 && '\r' as int == 13;
    assert 'A' as int == 65 && 'Z' as int == 90 && 'a' as int == 97 && 'f' as int == 102 && 'F' as int == 70;
    assert c == (c as int) as char && d == (d as int) as char;
  }

  lemma {:induction false} NormalizeKept(fingerprint: string)
    ensures |Normalize(fingerprint)| == |Kept(fingerprint)|
    ensures forall i | 0 <= i < |Kept(fingerprint)| :: Normalize(fingerprint)[i] == Lower(Kept(fingerprint)[i])
  {
    hide Lower, IsSeparator, Separating;
    if fingerprint == "" {
    } else {
      CharacterIff(fingerprint[0], fingerprint[0]);
      NormalizeKept(fingerprint[1..]);
    }
  }

  /** Two fingerprints normalise alike exactly if they are spellings of one; no two different ones are confused. */
  lemma NormalizeIff(a: string, b: string)
    ensures Normalize(a) == Normalize(b) <==> SameFingerprint(a, b)
  {
    hide Normalize, Kept, Lower, SameUpToCase;
    NormalizeKept(a);
    NormalizeKept(b);
    if |Kept(a)| == |Kept(b)| {
      forall i | 0 <= i < |Kept(a)|
        ensures Normalize(a)[i] == Normalize(b)[i] <==> SameUpToCase(Kept(a)[i], Kept(b)[i])
      {
        CharacterIff(Kept(a)[i], Kept(b)[i]);
      }
    }
  }

  lemma FingerprintIff(fingerprint: string)
    ensures ValidFingerprint(fingerprint) <==> IsSha256(fingerprint)
  {
    hide Normalize, Kept, Lower, HexCode, IsHexDigit;
    var normalized := Normalize(fingerprint);
    NormalizeKept(fingerprint);
    forall i | 0 <= i < |normalized|
      ensures normalized[i] in normalized
      ensures IsHexDigit(normalized[i]) <==> HexCode(Kept(fingerprint)[i] as int)
    {
      CharacterIff(Kept(fingerprint)[i], Kept(fingerprint)[i]);
    }
  }

  /** Separators may be put anywhere, and letters written in either case. */
  lemma {:induction false} SpellingIgnored(before: string, after: string, c: char, d: char)
    requires (Separating(c) && Separating(d)) || SameUpToCase(c, d)
    ensures Normalize(before + [c] + after) == Normalize(before + [d] + after)
    ensures Separating(c) ==> Normalize(before + [c] + after) == Normalize(before + after)
  {
    CharacterIff(c, d);
    CharacterIff(d, c);
    if before == "" {
      assert forall x :: before + [x] + after == [x] + after;
      assert before + after == after;
    } else {
      SpellingIgnored(before[1..], after, c, d);
      assert forall x :: before + [x] + after == [before[0]] + (before[1..] + [x] + after);
      assert before + after == [before[0]] + (before[1..] + after);
    }
  }

  // ---------------------------------------------------------------- operations

  function BeginError(request: Request): Option<string> {
    if IsBlank(request.deviceId) then Some("COMPANION_PAIRING_DEVICE_ID_MISSING")
    else if !ValidFingerprint(request.fingerprint) then Some("COMPANION_CERT_FINGERPRINT_INVALID")
    else None
  }

  function Opened(request: Request, now: nat, pairingId: string, shortCode: string): Challenge {
    Challenge(pairingId, request.deviceId, request.deviceName, Normalize(request.fingerprint), shortCode,
              now, now + PAIRING_TTL, MAX_ATTEMPTS)
  }

  function Begun(store: Store, request: Request, now: nat, pairingId: string, shortCode: string): Store {
    if BeginError(request).Some? then store
    else store.(pending := store.pending[pairingId := Opened(request, now, pairingId, shortCode)])
  }

  function TrustedBy(c: Challenge, now: nat): Trusted {
    Trusted(c.deviceId, c.deviceName, c.fingerprint, now, now + TRUST_TTL, None)
  }

  /** The store after a guess, and the device it made trusted or the complaint. */
  function Confirmed(store: Store, pairingId: string, shortCode: string, now: nat): (Store, Result<Trusted, string>) {
    if pairingId !in store.pending then (store, Failure("COMPANION_PAIRING_NOT_FOUND"))
    else
      var c := store.pending[pairingId];
      if now > c.expiresAt then (store.(pending := store.pending - {pairingId}), Failure("COMPANION_PAIRING_EXPIRED"))
      else if c.shortCode != shortCode then
        var left := if c.attemptsRemaining == 0 then 0 else c.attemptsRemaining - 1;
        (store.(pending := if left == 0 then store.pending - {pairingId}
                           else store.pending[pairingId := c.(attemptsRemaining := left)]),
         Failure("COMPANION_PAIRING_CODE_MISMATCH"))
      else
        (Store(store.pending - {pairingId}, store.trusted[c.deviceId := TrustedBy(c, now)]), Success(TrustedBy(c, now)))
  }

  function Revoked(store: Store, deviceId: string, now: nat): Store {
    if deviceId !in store.trusted then store
    else store.(trusted := store.trusted[deviceId := store.trusted[deviceId].(revokedAt := Some(now))])
  }

  predicate IsTrustedIn(store: Store, deviceId: string, fingerprint: string, now: nat) {
    && deviceId in store.trusted
    && store.trusted[deviceId].revokedAt.None?
    && now <= store.trusted[deviceId].expiresAt
    && store.trusted[deviceId].fingerprint == Normalize(fingerprint)
  }

  /** The first n devices of a file, filed under their identifiers, or the first complaint. */
  function Filed(devices: seq<Trusted>, n: nat): Result<map<string, Trusted>, string>
    requires n <= |devices|
  {
    if n == 0 then Success(map[])
    else
      var before := Filed(devices, n - 1);
      var device := devices[n - 1];
      if before.Failure? then before
      else if IsBlank(device.deviceId) then Failure("COMPANION_PAIRING_DEVICE_ID_MISSING")
      else if !ValidFingerprint(device.fingerprint) then Failure("COMPANION_CERT_FINGERPRINT_INVALID")
      else Success(before.value[device.deviceId := device])
  }

  function Loaded(file: File): Result<Store, string> {
    match file
    case Missing => Success(EMPTY)
    case Unreadable => Failure("COMPANION_TRUST_STORE_READ_FAILED")
    case Malformed => Failure("COMPANION_TRUST_STORE_PARSE_FAILED")
    case Parsed(version, devices) =>
      if version != SCHEMA_VERSION then Failure("COMPANION_TRUST_STORE_SCHEMA_UNSUPPORTED")
      else
        match Filed(devices, |devices|)
        case Success(trusted) => Success(Store(map[], trusted))
        case Failure(code) => Failure(code)
  }

  class TrustStore {
    var pending: map<string, Challenge>
    var trusted: map<string, Trusted>

    constructor ()
      ensures Current() == EMPTY
    {
      pending, trusted := map[], map[];
    }

    function Current(): Store
      reads this
    {
      Store(pending, trusted)
    }

    static method Load(file: File) returns (r: Result<TrustStore, string>)
      ensures match Loaded(file)
              case Success(store) => r.Success? && fresh(r.value) && r.value.Current() == store
              case Failure(code) => r == Failure(code)
    {
      if file.Unreadable? {
        return Failure("COMPANION_TRUST_STORE_READ_FAILED");
      }
      if file.Malformed? {
        return Failure("COMPANION_TRUST_STORE_PARSE_FAILED");
      }
      if file.Parsed? && file.schemaVersion != SCHEMA_VERSION {
        return Failure("COMPANION_TRUST_STORE_SCHEMA_UNSUPPORTED");
      }
      var store := new TrustStore();
      if file.Parsed? {
        var i := 0;
        while i < |file.devices|
          invariant 0 <= i <= |file.devices|
          invariant store.pending == map[] && Filed(file.devices, i) == Success(store.trusted)
        {
          var device := file.devices[i];
          if IsBlank(device.deviceId) {
            FiledFails(file.devices, i + 1, |file.devices|);
            return Failure("COMPANION_PAIRING_DEVICE_ID_MISSING");
          }
          if !ValidFingerprint(device.fingerprint) {
            FiledFails(file.devices, i + 1, |file.devices|);
            return Failure("COMPANION_CERT_FINGERPRINT_INVALID");
          }
          store.trusted := store.trusted[device.deviceId := device];
          i := i + 1;
        }
      }
      r := Success(store);
    }

    /** The order in which a map lists its values is not fixed. */
    method Save() returns (file: File)
      ensures file.Parsed? && file.schemaVersion == SCHEMA_VERSION && ListsExactly(trusted, file.devices)
    {
      var devices: seq<Trusted> := [];
      var keys: seq<string> := [];
      var left := trusted.Keys;
      while left != {}
        invariant left <= trusted.Keys
        invariant |keys| == |devices| && (forall k :: k in keys <==> k in trusted && k !in left)
        invariant forall i, j | 0 <= i < j < |keys| :: keys[i] != keys[j]
        invariant forall i | 0 <= i < |keys| :: keys[i] in trusted && devices[i] == trusted[keys[i]]
        decreases left
      {
        var key :| key in left;
        keys, devices, left := keys + [key], devices + [trusted[key]], left - {key};
      }
      assert IsListing(trusted, keys, devices);
      file := Parsed(SCHEMA_VERSION, devices);
    }

    method BeginPairing(request: Request, now: nat, pairingId: string, shortCode: string)
        returns (r: Result<Challenge, string>)
      modifies this
      ensures Current() == Begun(old(Current()), request, now, pairingId, shortCode)
      ensures r == match BeginError(request)
                   case Some(code) => Failure(code)
                   case None => Success(Opened(request, now, pairingId, shortCode))
    {
      if IsBlank(request.deviceId) {
        return Failure("COMPANION_PAIRING_DEVICE_ID_MISSING");
      }
      if !ValidFingerprint(request.fingerprint) {
        return Failure("COMPANION_CERT_FINGERPRINT_INVALID");
      }
      var challenge := Opened(request, now, pairingId, shortCode);
      pending := pending[pairingId := challenge];
      r := Success(challenge);
    }

    method ConfirmPairing(pairingId: string, shortCode: string, now: nat) returns (r: Result<Trusted, string>)
      modifies this
      ensures (Current(), r) == Confirmed(old(Current()), pairingId, shortCode, now)
    {
      if pairingId !in pending {
        return Failure("COMPANION_PAIRING_NOT_FOUND");
      }
      var challenge := pending[pairingId];
      if now > challenge.expiresAt {
        pending := pending - {pairingId};
        return Failure("COMPANION_PAIRING_EXPIRED");
      }
      if challenge.shortCode != shortCode {
        var left := if challenge.attemptsRemaining == 0 then 0 else challenge.attemptsRemaining - 1;
        pending := pending[pairingId := challenge.(attemptsRemaining := left)];
        if left == 0 {
          pending := pending - {pairingId};
          assert pending == old(pending) - {pairingId};
        }
        return Failure("COMPANION_PAIRING_CODE_MISMATCH");
      }
      pending := pending - {pairingId};
      var device := TrustedBy(challenge, now);
      trusted := trusted[device.deviceId := device];
      r := Success(device);
    }

    method IsTrusted(deviceId: string, fingerprint: string, now: nat) returns (yes: bool)
      ensures yes == IsTrustedIn(Current(), deviceId, fingerprint, now)
    {
      if deviceId !in trusted {
        return false;
      }
      var device := trusted[deviceId];
      yes := device.revokedAt.None? && now <= device.expiresAt && device.fingerprint == Normalize(fingerprint);
    }

    method RevokeDevice(deviceId: string, now: nat) returns (r: Result<Trusted, string>)
      modifies this
      ensures Current() == Revoked(old(Current()), deviceId, now)
      ensures r == if deviceId in old(trusted) then Success(trusted[deviceId])
          else Failure("COMPANION_TRUST_DEVICE_NOT_FOUND")
    {
      if deviceId !in trusted {
        return Failure("COMPANION_TRUST_DEVICE_NOT_FOUND");
      }
      trusted := trusted[deviceId := trusted[deviceId].(revokedAt := Some(now))];
      r := Success(trusted[deviceId]);
    }
  }

  lemma {:induction false} FiledFails(devices: seq<Trusted>, n: nat, k: nat)
    requires n <= k <= |devices| && Filed(devices, n).Failure?
    ensures Filed(devices, k) == Filed(devices, n)
  {
    if n == k {
    } else {
      FiledFails(devices, n, k - 1);
    }
  }

  // ---------------------------------------------------------------- save, then load

  /** keys lists every key once, devices the values in that order. */
  ghost predicate IsListing(trusted: map<string, Trusted>, keys: seq<string>, devices: seq<Trusted>) {
    && |keys| == |devices|
    && (forall k :: k in keys <==> k in trusted)
    && (forall i, j | 0 <= i < j < |keys| :: keys[i] != keys[j])
    && (forall i | 0 <= i < |keys| :: keys[i] in trusted && devices[i] == trusted[keys[i]])
  }

  ghost predicate ListsExactly(trusted: map<string, Trusted>, devices: seq<Trusted>) {
    exists keys :: IsListing(trusted, keys, devices)
  }

  /** What every reachable store satisfies, and what loading checks. */
  ghost predicate Sound(store: Store) {
    && (forall d | d in store.trusted ::
          store.trusted[d].deviceId == d && !IsBlank(d) && ValidFingerprint(store.trusted[d].fingerprint))
    && (forall p | p in store.pending ::
          !IsBlank(store.pending[p].deviceId) && ValidFingerprint(store.pending[p].fingerprint))
  }

  lemma {:induction false} FiledPrefix(store: Store, keys: seq<string>, devices: seq<Trusted>, n: nat)
    requires Sound(store) && IsListing(store.trusted, keys, devices) && n <= |devices|
    ensures Filed(devices, n).Success?
    ensures forall i | 0 <= i < n :: keys[i] in Filed(devices, n).value
    ensures forall k | k in Filed(devices, n).value ::
        k in store.trusted && Filed(devices, n).value[k] == store.trusted[k]
  {
    hide ValidFingerprint, IsBlank;
    if n == 0 {
    } else {
      FiledPrefix(store, keys, devices, n - 1);
      assert devices[n - 1] == store.trusted[keys[n - 1]];
    }
  }

  /** A saved store comes back whole, in whatever order it was listed; open pairings do not survive. */
  lemma SaveThenLoad(store: Store, devices: seq<Trusted>)
    requires Sound(store) && ListsExactly(store.trusted, devices)
    ensures Loaded(Parsed(SCHEMA_VERSION, devices)) == Success(Store(map[], store.trusted))
  {
    hide Sound, Filed;
    var keys :| IsListing(store.trusted, keys, devices);
    FiledPrefix(store, keys, devices, |devices|);
    SameMap(store.trusted, Filed(devices, |devices|).value, keys);
  }

  lemma SameMap(whole: map<string, Trusted>, part: map<string, Trusted>, keys: seq<string>)
    requires forall k :: k in keys <==> k in whole
    requires forall i | 0 <= i < |keys| :: keys[i] in part
    requires forall k | k in part :: k in whole && part[k] == whole[k]
    ensures part == whole
  {
  }

  /** The devices of a file are filed exactly when every one is valid; else the first that is not decides. */
  lemma {:induction false} FiledMeaning(devices: seq<Trusted>, n: nat)
    requires n <= |devices|
    ensures var r := Filed(devices, n);
            && (r.Success? <==>
                  forall i | 0 <= i < n :: !IsBlank(devices[i].deviceId) && IsSha256(devices[i].fingerprint))
            && (r.Failure? ==>
                  exists i | 0 <= i < n ::
                    && (forall j | 0 <= j < i :: !IsBlank(devices[j].deviceId) && IsSha256(devices[j].fingerprint))
                    && r.error == if IsBlank(devices[i].deviceId) then "COMPANION_PAIRING_DEVICE_ID_MISSING"
                                  else "COMPANION_CERT_FINGERPRINT_INVALID")
  {
    hide ValidFingerprint, IsSha256, IsBlank;
    if n == 0 {
    } else {
      FiledMeaning(devices, n - 1);
      FingerprintIff(devices[n - 1].fingerprint);
    }
  }

  /** Loading: a missing file is empty, a readable one of this schema brings its valid devices, others are refused. */
  lemma LoadedIff(file: File)
    ensures match file
            case Missing => Loaded(file) == Success(Store(map[], map[]))
            case Unreadable => Loaded(file) == Failure("COMPANION_TRUST_STORE_READ_FAILED")
            case Malformed => Loaded(file) == Failure("COMPANION_TRUST_STORE_PARSE_FAILED")
            case Parsed(version, devices) =>
              if version != 1 then Loaded(file) == Failure("COMPANION_TRUST_STORE_SCHEMA_UNSUPPORTED")
              else
                && (Loaded(file).Success? <==> Filed(devices, |devices|).Success?)
                && (Loaded(file).Success? ==> Loaded(file).value == Store(map[], Filed(devices, |devices|).value))
                && (Loaded(file).Failure? ==> Loaded(file).error == Filed(devices, |devices|).error)
  {
    hide Filed;
  }
}
