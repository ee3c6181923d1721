/** Trust as a function of the history of pairings, guesses, revocations and restarts. */
module CompanionTrustLaws {
  import opened Common
  import opened Text
  import opened CompanionTrust

  datatype Event =
    | Begin(request: Request, at: nat, pairingId: string, shortCode: string)
    | Confirm(pairingId: string, shortCode: string, at: nat)
    | Revoke(deviceId: string, at: nat)
    | Restart                               // the store is saved and loaded again

  function Apply(store: Store, e: Event): Store {
    match e
    case Begin(request, at, pairingId, shortCode) => Begun(store, request, at, pairingId, shortCode)
    case Confirm(pairingId, shortCode, at) => Confirmed(store, pairingId, shortCode, at).0
    case Revoke(deviceId, at) => Revoked(store, deviceId, at)
    case Restart => Store(map[], store.trusted)
  }

  /** The store after the first n events. */
  function After(h: seq<Event>, n: nat): Store
    requires n <= |h|
  {
    if n == 0 then EMPTY else Apply(After(h, n - 1), h[n - 1])
  }

  lemma ApplyKeepsSound(store: Store, e: Event)
    requires Sound(store)
    ensures Sound(Apply(store, e))
  {
    hide ValidFingerprint, IsBlank;
    if e.Begin? {
      NormalizeIdempotent(e.request.fingerprint);
      assert ValidFingerprint(e.request.fingerprint) ==> ValidFingerprint(Normalize(e.request.fingerprint)) by {
        NormalizedStaysValid(e.request.fingerprint);
      }
    }
  }

  lemma NormalizedStaysValid(fingerprint: string)
    ensures ValidFingerprint(Normalize(fingerprint)) == ValidFingerprint(fingerprint)
  {
    NormalizeIdempotent(fingerprint);
  }

  lemma {:induction false} AlwaysSound(h: seq<Event>, n: nat)
    requires n <= |h|
    ensures Sound(After(h, n))
  {
    hide Sound, Apply;
    if n == 0 {
      EmptyIsSound();
    } else {
      AlwaysSound(h, n - 1);
      ApplyKeepsSound(After(h, n - 1), h[n - 1]);
    }
  }

  lemma EmptyIsSound()
    ensures Sound(EMPTY)
  {
  }

  /** Restarting is saving and loading, for every reachable store and every listing order. */
  lemma RestartIsSaveAndLoad(h: seq<Event>, n: nat, devices: seq<Trusted>)
    requires n <= |h| && ListsExactly(After(h, n).trusted, devices)
    ensures Loaded(Parsed(SCHEMA_VERSION, devices)) == Success(Apply(After(h, n), Restart))
  {
    hide Sound, Loaded, After;
    AlwaysSound(h, n);
    SaveThenLoad(After(h, n), devices);
  }

  // ---------------------------------------------------------------- open challenges

  predicate Opens(e: Event) {
    e.Begin? && !IsBlank(e.request.deviceId) && IsSha256(e.request.fingerprint)
  }

  /** A request is accepted exactly so; otherwise the first complaint is given. */
  lemma OpensIff(e: Event)
    requires e.Begin?
    ensures BeginError(e.request)
            == if Opens(e) then None
               else Some(if IsBlank(e.request.deviceId) then "COMPANION_PAIRING_DEVICE_ID_MISSING"
                         else "COMPANION_CERT_FINGERPRINT_INVALID")
  {
    hide ValidFingerprint, IsSha256, IsBlank;
    FingerprintIff(e.request.fingerprint);
  }

  /** e leaves the challenge that b opened open, if guesses are left; it lasts five minutes. */
  predicate Spares(b: Event, e: Event)
    requires b.Begin?
  {
    match e
    case Begin(_, _, pairingId, _) => !(Opens(e) && pairingId == b.pairingId)
    case Confirm(pairingId, shortCode, at) =>
      pairingId == b.pairingId ==> shortCode != b.shortCode && at <= b.at + 300_000
    case Revoke(_, _) => true
    case Restart => false
  }

  /** Guesses at the challenge of h[k] before n. */
  function Guesses(h: seq<Event>, k: nat, n: nat): nat
    requires k < n <= |h| && h[k].Begin?
  {
    if n == k + 1 then 0
    else
      Guesses(h, k, n - 1) + if h[n - 1].Confirm? && h[n - 1].pairingId == h[k].pairingId then 1 else 0
  }

  /** The challenge of h[k] is open before n: never solved, expired, replaced, lost or guessed away. */
  ghost predicate IsOpen(h: seq<Event>, k: nat, n: nat)
    requires k < n <= |h|
  {
    && Opens(h[k])
    && (forall j | k < j < n :: Spares(h[k], h[j]))
    && Guesses(h, k, n) < 5
  }

  function Remaining(h: seq<Event>, k: nat, n: nat): Challenge
    requires k < n <= |h| && h[k].Begin?
    requires Guesses(h, k, n) < 5
  {
    var request := h[k].request;
    Challenge(h[k].pairingId, request.deviceId, request.deviceName, Normalize(request.fingerprint), h[k].shortCode,
              h[k].at, h[k].at + 300_000, 5 - Guesses(h, k, n))
  }

  /** Whether e adds to the guesses at the challenge of h[k]. */
  lemma OpenStep(h: seq<Event>, k: nat, n: nat)
    requires k < n < |h|
    ensures IsOpen(h, k, n + 1) <==>
              IsOpen(h, k, n) && Spares(h[k], h[n]) && Guesses(h, k, n + 1) < 5
  {
  }

  ghost predicate PendingFits(h: seq<Event>, n: nat, id: string)
    requires n <= |h|
  {
    && (forall k | 0 <= k < n && IsOpen(h, k, n) && h[k].pairingId == id ::
          id in After(h, n).pending && After(h, n).pending[id] == Remaining(h, k, n))
    && (id in After(h, n).pending ==> exists k | 0 <= k < n :: IsOpen(h, k, n) && h[k].pairingId == id)
  }

  lemma PendingNow(h: seq<Event>, n: nat)
    requires n < |h| && IsOpen(h, n, n + 1)
    ensures h[n].pairingId in After(h, n + 1).pending
    ensures After(h, n + 1).pending[h[n].pairingId] == Remaining(h, n, n + 1)
  {
    hide BeginError, Normalize, IsSha256, IsBlank;
    OpensIff(h[n]);
  }

  lemma PendingOnward(h: seq<Event>, n: nat, id: string, k: nat)
    requires k < n < |h| && PendingFits(h, n, id) && IsOpen(h, k, n + 1) && h[k].pairingId == id
    ensures id in After(h, n + 1).pending && After(h, n + 1).pending[id] == Remaining(h, k, n + 1)
  {
    hide BeginError, Normalize, Opens;
    OpenStep(h, k, n);
    if h[n].Begin? {
      OpensIff(h[n]);
    }
  }

  lemma PendingForward(h: seq<Event>, n: nat, id: string, k: nat)
    requires n < |h| && PendingFits(h, n, id) && k < n + 1 && IsOpen(h, k, n + 1) && h[k].pairingId == id
    ensures id in After(h, n + 1).pending && After(h, n + 1).pending[id] == Remaining(h, k, n + 1)
  {
    hide After, PendingFits, Opens, Spares, Guesses;
    if k < n {
      PendingOnward(h, n, id, k);
    } else {
      PendingNow(h, n);
    }
  }

  lemma PendingBackward(h: seq<Event>, n: nat, id: string) returns (k: nat)
    requires n < |h| && PendingFits(h, n, id) && id in After(h, n + 1).pending
    ensures k < n + 1 && IsOpen(h, k, n + 1) && h[k].pairingId == id
  {
    hide BeginError, Normalize, IsSha256, IsBlank;
    if h[n].Begin? {
      OpensIff(h[n]);
    }
    if Opens(h[n]) && h[n].pairingId == id {
      k := n;
    } else {
      k :| 0 <= k < n && IsOpen(h, k, n) && h[k].pairingId == id;
      OpenStep(h, k, n);
    }
  }

  /**
   * A pairing is pending exactly when some accepted request opened it and nothing closed it since, and
   * then it has five attempts minus the guesses made: between one and five.
   */
  lemma {:induction false} PendingIsExact(h: seq<Event>, n: nat, id: string)
    requires n <= |h|
    ensures PendingFits(h, n, id)
  {
    hide After, Spares, Guesses, BeginError, Opened;
    if n == 0 {
      assert PendingFits(h, 0, id) by { NothingPending(h, id); }
    } else {
      PendingIsExact(h, n - 1, id);
      forall k: nat | k < n && IsOpen(h, k, n) && h[k].pairingId == id
        ensures id in After(h, n).pending && After(h, n).pending[id] == Remaining(h, k, n)
      {
        PendingForward(h, n - 1, id, k);
      }
      if id in After(h, n).pending {
        var k := PendingBackward(h, n - 1, id);
      }
    }
  }

  lemma NothingPending(h: seq<Event>, id: string)
    ensures PendingFits(h, 0, id)
  {
  }

  // ---------------------------------------------------------------- guesses that succeed

  /** The guess at i solves the challenge of h[k]. */
  ghost predicate Solves(h: seq<Event>, k: nat, i: nat)
    requires k < i < |h|
  {
    && IsOpen(h, k, i)
    && h[i].Confirm? && h[i].pairingId == h[k].pairingId && h[i].shortCode == h[k].shortCode
    && h[i].at <= h[k].at + 300_000
  }

  predicate Succeeds(h: seq<Event>, i: nat)
    requires i < |h|
  {
    h[i].Confirm? && Confirmed(After(h, i), h[i].pairingId, h[i].shortCode, h[i].at).1.Success?
  }

  /** The trust that the success at i, of the challenge of h[k], creates. */
  function Granted(h: seq<Event>, k: nat, i: nat): Trusted
    requires k < i < |h| && h[k].Begin? && h[i].Confirm?
  {
    Trusted(h[k].request.deviceId, h[k].request.deviceName, Normalize(h[k].request.fingerprint),
            h[i].at, h[i].at + 2_592_000_000, None)
  }

  /** A guess succeeds exactly when it solves an open challenge, and it trusts what that request named. */
  lemma ConfirmIsExact(h: seq<Event>, i: nat)
    requires i < |h|
    ensures Succeeds(h, i) <==> exists k | 0 <= k < i :: Solves(h, k, i)
    ensures forall k | 0 <= k < i && Solves(h, k, i) ::
              Confirmed(After(h, i), h[i].pairingId, h[i].shortCode, h[i].at).1 == Success(Granted(h, k, i))
  {
    hide After, Spares, Guesses, BeginError, Normalize;
    if h[i].Confirm? {
      PendingIsExact(h, i, h[i].pairingId);
      if Succeeds(h, i) {
        var k :| 0 <= k < i && IsOpen(h, k, i) && h[k].pairingId == h[i].pairingId;
        assert Solves(h, k, i);
      }
    }
  }

  /** Every guess is answered by the challenge that is open then, if one is: late, wrong or right. */
  lemma GuessAnswered(h: seq<Event>, i: nat)
    requires i < |h| && h[i].Confirm?
    ensures var answer := Confirmed(After(h, i), h[i].pairingId, h[i].shortCode, h[i].at).1;
            && ((forall k | 0 <= k < i && IsOpen(h, k, i) :: h[k].pairingId != h[i].pairingId) ==>
                  answer == Failure("COMPANION_PAIRING_NOT_FOUND"))
            && forall k | 0 <= k < i && IsOpen(h, k, i) && h[k].pairingId == h[i].pairingId ::
                answer == if h[i].at > h[k].at + 300_000 then Failure("COMPANION_PAIRING_EXPIRED")
                          else if h[i].shortCode != h[k].shortCode then Failure("COMPANION_PAIRING_CODE_MISMATCH")
                          else Success(Granted(h, k, i))
  {
    hide After, Spares, Guesses, Normalize;
    PendingIsExact(h, i, h[i].pairingId);
  }

  /** A challenge creates trust at most once: between two successes a new request must reopen the identifier. */
  lemma TrustsOncePerChallenge(h: seq<Event>, i: nat, j: nat)
    requires i < j < |h| && Succeeds(h, i) && Succeeds(h, j) && h[i].pairingId == h[j].pairingId
    ensures exists k | i < k < j :: Opens(h[k]) && h[k].pairingId == h[j].pairingId
  {
    hide Succeeds, BeginError;
    ConfirmIsExact(h, i);
    ConfirmIsExact(h, j);
    var a :| 0 <= a < i && Solves(h, a, i);
    var b :| 0 <= b < j && Solves(h, b, j);
    OpenedAfter(h, a, i, b, j);
  }

  /** Only one challenge at a time is open under an identifier, and solving it closes it. */
  lemma OpenedAfter(h: seq<Event>, a: nat, i: nat, b: nat, j: nat)
    requires a < i < j < |h| && b < j && Solves(h, a, i) && Solves(h, b, j) && h[a].pairingId == h[b].pairingId
    ensures i < b
  {
  }

  // ---------------------------------------------------------------- trust

  ghost predicate TrustsAt(h: seq<Event>, i: nat, d: string)
    requires i < |h|
  {
    exists k | 0 <= k < i :: Solves(h, k, i) && h[k].request.deviceId == d
  }

  /** The success at i, of the challenge of h[k], is the latest word on d before n. */
  ghost predicate Stands(h: seq<Event>, k: nat, i: nat, n: nat, d: string)
    requires k < i < n <= |h|
  {
    && Solves(h, k, i) && h[k].request.deviceId == d
    && (forall j | i < j < n :: !TrustsAt(h, j, d) && !(h[j].Revoke? && h[j].deviceId == d))
  }

  /** What one event does to the trust in d. */
  lemma TrustStep(h: seq<Event>, n: nat, d: string)
    requires n < |h|
    ensures var before, after := After(h, n).trusted, After(h, n + 1).trusted;
            && (forall k | 0 <= k < n && Solves(h, k, n) && h[k].request.deviceId == d ::
                  d in after && after[d] == Granted(h, k, n))
            && (!TrustsAt(h, n, d) ==>
                  && (d in after <==> d in before)
                  && (d in before ==>
                        after[d] == if h[n].Revoke?
                            && h[n].deviceId == d then before[d].(revokedAt := Some(h[n].at)) else before[d]))
  {
    hide Solves, Normalize, BeginError, Opens;
    ConfirmIsExact(h, n);
  }

  ghost predicate TrustFits(h: seq<Event>, n: nat, d: string)
    requires n <= |h|
  {
    && (forall k: nat, i: nat | k < i < n && Stands(h, k, i, n, d) ::
          d in After(h, n).trusted && After(h, n).trusted[d] == Granted(h, k, i))
    && (d in After(h, n).trusted && After(h, n).trusted[d].revokedAt.None? ==>
          exists k: nat, i: nat | k < i < n :: Stands(h, k, i, n, d))
  }

  lemma TrustForward(h: seq<Event>, n: nat, d: string, k: nat, i: nat)
    requires n < |h| && TrustFits(h, n, d) && k < i < n + 1 && Stands(h, k, i, n + 1, d)
    ensures d in After(h, n + 1).trusted && After(h, n + 1).trusted[d] == Granted(h, k, i)
  {
    hide After, IsOpen;
    TrustStep(h, n, d);
    if i < n {
      assert Stands(h, k, i, n, d);
      assert !TrustsAt(h, n, d);
    }
  }

  lemma TrustedNow(h: seq<Event>, n: nat, d: string) returns (k: nat)
    requires n < |h| && TrustsAt(h, n, d)
    ensures k < n && Stands(h, k, n, n + 1, d)
  {
    hide Spares, Guesses, BeginError;
    k :| 0 <= k < n && Solves(h, k, n) && h[k].request.deviceId == d;
  }

  lemma StandsLonger(h: seq<Event>, k: nat, i: nat, n: nat, d: string)
    requires k < i < n < |h| && Stands(h, k, i, n, d)
    requires !TrustsAt(h, n, d) && !(h[n].Revoke? && h[n].deviceId == d)
    ensures Stands(h, k, i, n + 1, d)
  {
    hide IsOpen, TrustsAt;
  }

  lemma TrustBackward(h: seq<Event>, n: nat, d: string) returns (k: nat, i: nat)
    requires n < |h| && TrustFits(h, n, d)
    requires d in After(h, n + 1).trusted && After(h, n + 1).trusted[d].revokedAt.None?
    ensures k < i < n + 1 && Stands(h, k, i, n + 1, d)
  {
    hide After, IsOpen, TrustsAt, Stands;
    TrustStep(h, n, d);
    if TrustsAt(h, n, d) {
      k := TrustedNow(h, n, d);
      i := n;
    } else {
      k, i :| k < i < n && Stands(h, k, i, n, d);
      StandsLonger(h, k, i, n, d);
    }
  }

  lemma {:induction false} TrustIsExact(h: seq<Event>, n: nat, d: string)
    requires n <= |h|
    ensures TrustFits(h, n, d)
  {
    hide After, Spares, Guesses, BeginError, TrustsAt;
    if n == 0 {
      NothingTrusted(h, d);
    } else {
      TrustIsExact(h, n - 1, d);
      forall k: nat, i: nat | k < i < n && Stands(h, k, i, n, d)
        ensures d in After(h, n).trusted && After(h, n).trusted[d] == Granted(h, k, i)
      {
        TrustForward(h, n - 1, d, k, i);
      }
      if d in After(h, n).trusted && After(h, n).trusted[d].revokedAt.None? {
        var k, i := TrustBackward(h, n - 1, d);
      }
    }
  }

  lemma NothingTrusted(h: seq<Event>, d: string)
    ensures TrustFits(h, 0, d)
  {
  }

  /**
   * A device is trusted exactly when its latest successful confirmation was not followed by a revocation,
   * is at most thirty days old, and was for this fingerprint.
   */
  lemma TrustedByHistory(h: seq<Event>, d: string, fingerprint: string, now: nat)
    ensures IsTrustedIn(After(h, |h|), d, fingerprint, now) <==>
              exists k: nat, i: nat | k < i < |h| ::
                && Stands(h, k, i, |h|, d)
                && now <= h[i].at + 2_592_000_000
                && SameFingerprint(h[k].request.fingerprint, fingerprint)
  {
    hide After, Spares, Guesses, BeginError, TrustsAt;
    TrustIsExact(h, |h|, d);
    if IsTrustedIn(After(h, |h|), d, fingerprint, now) {
      var k: nat, i: nat :| k < i < |h| && Stands(h, k, i, |h|, d);
      assert After(h, |h|).trusted[d] == Granted(h, k, i);
      NormalizeIff(h[k].request.fingerprint, fingerprint);
    }
    forall k: nat, i: nat | k < i < |h| && Stands(h, k, i, |h|, d)
      ensures Normalize(h[k].request.fingerprint) == Normalize(fingerprint)
              <==> SameFingerprint(h[k].request.fingerprint, fingerprint)
    {
      NormalizeIff(h[k].request.fingerprint, fingerprint);
    }
  }
}
