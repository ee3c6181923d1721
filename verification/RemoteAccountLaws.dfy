/** Who may act, as a function of the history of logins, logouts and account changes. */
module RemoteAccountLaws {
  import opened Common
  import opened Text
  import opened RemoteAccounts

  datatype Event =
    | SignIn(username: string, password: string, token: string, at: nat)
    | Check(token: string, at: nat)
    | SignOut(token: string)
    | Create(username: string, password: string, saved: bool)
    | Delete(username: string, saved: bool)
    | ChangePassword(username: string, current: string, password: string, saved: bool)
    | Reset(username: string, password: string, saved: bool)
    | SetAccess(username: string, device: string, granted: bool, saved: bool)

  function Perform(s: State, ttl: nat, e: Event): (State, Answer) {
    match e
    case SignIn(username, password, token, at) => Login(s, ttl, username, password, token, at)
    case Check(token, at) => Authenticate(s, token, at)
    case SignOut(token) => Logout(s, token)
    case Create(username, password, saved) => CreateUser(s, username, password, saved)
    case Delete(username, saved) => DeleteUser(s, username, saved)
    case ChangePassword(username, current, password, saved) => ChangeOwnPassword(s, username, current, password, saved)
    case Reset(username, password, saved) => ResetPassword(s, username, password, saved)
    case SetAccess(username, device, granted, saved) => SetDeviceAccess(s, username, device, granted, saved)
  }

  /** Everything that happened since the database was loaded. */
  datatype History = History(loaded: map<string, Account>, ttl: nat, events: seq<Event>)

  /** The state after the first n events. */
  function After(h: History, n: nat): State
    requires n <= |h.events|
  {
    if n == 0 then State(h.loaded, map[]) else Perform(After(h, n - 1), h.ttl, h.events[n - 1]).0
  }

  // ---------------------------------------------------------------- what never breaks

  ghost predicate Sound(s: State) {
    && HasAdmin(s.users)
    && forall t | t in s.sessions :: s.sessions[t].username in s.users
  }

  lemma PerformKeepsSound(s: State, ttl: nat, e: Event)
    requires Sound(s)
    ensures Sound(Perform(s, ttl, e).0)
  {
    hide ValidUsername, ValidPassword, IsBlank, Mismatch;
  }

  /**
   * The built-in administrator survives every history, and no session outlives its account, so the
   * answer "the session's account is gone" is never given.
   */
  lemma {:induction false} AlwaysSound(h: History, n: nat)
    requires HasAdmin(h.loaded) && n <= |h.events|
    ensures Sound(After(h, n))
  {
    hide HasAdmin, Perform;
    if n == 0 {
    } else {
      AlwaysSound(h, n - 1);
      PerformKeepsSound(After(h, n - 1), h.ttl, h.events[n - 1]);
    }
  }

  // ---------------------------------------------------------------- one writing operation

  /** An account as an answer shows it. */
  function Shown(user: Account): Answer {
    View(PublicAccount(user.username, user.role, user.devices, user.builtIn, user.passwordChangeRequired))
  }

  /** When a writing operation is refused, and with which of several possible complaints. */
  function Complaint(s: State, e: Event): Option<string>
    requires Writes(e)
  {
    var known := e.username in s.users;
    if e.Create? && !ValidUsername(e.username) then Some("REMOTE_AUTH_USERNAME_INVALID")
    else if (e.Create? || e.ChangePassword? || e.Reset?) && !ValidPassword(e.password)
    then Some("REMOTE_AUTH_PASSWORD_INVALID")
    else if e.Create? then if known then Some("REMOTE_AUTH_USER_EXISTS") else None
    else if e.Delete? && e.username == "admin" then Some("REMOTE_AUTH_BUILTIN_USER_IMMUTABLE")
    else if e.SetAccess? && IsBlank(e.device) then Some("REMOTE_AUTH_DEVICE_ID_INVALID")
    else if !known then Some("REMOTE_AUTH_USER_NOT_FOUND")
    else if e.ChangePassword? && s.users[e.username].secret != HashOf(e.current)
    then Some(if s.users[e.username].secret == Unparseable then "REMOTE_AUTH_DATABASE_INVALID"
              else "REMOTE_AUTH_CREDENTIALS_INVALID")
    else None
  }

  predicate Writes(e: Event) {
    e.Create? || e.Delete? || e.ChangePassword? || e.Reset? || e.SetAccess?
  }

  /** A writing operation that could be saved is refused exactly with its complaint; otherwise it shows the account. */
  lemma WritingIff(s: State, ttl: nat, e: Event)
    requires Writes(e) && e.saved
    ensures var (after, answer) := Perform(s, ttl, e);
            if Complaint(s, e).Some? then after == s && answer == Refused(Complaint(s, e).value)
            else
              if e.Create? || e.SetAccess? then e.username in after.users && answer == Shown(after.users[e.username])
              else answer == Done
  {
    hide ValidUsername, ValidPassword, IsBlank;
  }

  /** What one event does to account u: at most the accepted operation on it, and that in full. */
  lemma AccountAfter(s: State, ttl: nat, e: Event, u: string)
    ensures var after := Perform(s, ttl, e).0.users;
            if Writes(e) && e.username == u && Complaint(s, e).None?
            then match e
              case Create(_, password, _) =>
                u in after && after[u] == Account(u, HashOf(password), User, {}, false, false)
              case Delete(_, _) => u !in after
              case ChangePassword(_, _, password, _) =>
                && u in s.users && u in after
                && after[u] == s.users[u].(secret := HashOf(password), passwordChangeRequired := false)
              case Reset(_, password, _) =>
                && u in s.users && u in after
                && after[u] == s.users[u].(secret := HashOf(password), passwordChangeRequired := true)
              case SetAccess(_, device, granted, _) =>
                && u in s.users && u in after
                && after[u] == s.users[u].(devices := after[u].devices)
                && forall d :: d in after[u].devices <==> if d == device then granted else d in s.users[u].devices
            else (u in after <==> u in s.users) && (u in after ==> after[u] == s.users[u])
  {
    hide ValidUsername, ValidPassword, IsBlank;
  }

  // ---------------------------------------------------------------- secrets

  /** The secret of account u after the first n events, read from the events alone; None without an account. */
  function Held(h: History, n: nat, u: string): Option<Secret>
    requires n <= |h.events|
  {
    if n == 0 then if u in h.loaded then Some(h.loaded[u].secret) else None
    else
      var before := Held(h, n - 1, u);
      match h.events[n - 1]
      case Create(username, password, _) =>
        if username == u && before.None? && ValidUsername(u) && ValidPassword(password)
        then Some(HashOf(password)) else before
      case Delete(username, _) => if username == u && u != ADMIN then None else before
      case ChangePassword(username, current, password, _) =>
        if username == u && before == Some(HashOf(current)) && ValidPassword(password)
        then Some(HashOf(password)) else before
      case Reset(username, password, _) =>
        if username == u && before.Some? && ValidPassword(password) then Some(HashOf(password)) else before
      case _ => before
  }

  ghost predicate HeldAt(h: History, n: nat, u: string)
    requires n <= |h.events|
  {
    && (u in After(h, n).users <==> Held(h, n, u).Some?)
    && (u in After(h, n).users ==> After(h, n).users[u].secret == Held(h, n, u).value)
  }

  lemma HeldStep(h: History, n: nat, u: string)
    requires n < |h.events| && HeldAt(h, n, u)
    ensures HeldAt(h, n + 1, u)
  {
    hide ValidUsername, ValidPassword, IsBlank, Perform;
    AccountAfter(After(h, n), h.ttl, h.events[n], u);
  }

  /** The accounts and their secrets are what the events say. */
  lemma {:induction false} HeldIsExact(h: History, n: nat, u: string)
    requires n <= |h.events|
    ensures HeldAt(h, n, u)
  {
    hide Perform;
    if n == 0 {
    } else {
      HeldIsExact(h, n - 1, u);
      HeldStep(h, n - 1, u);
    }
  }

  /** The account an event is about, if it is about one. */
  function Subject(e: Event): string {
    if e.Check? || e.SignOut? then "" else e.username
  }

  // ---------------------------------------------------------------- sessions

  /** The event at i is a login that issued token t: it gave the secret the account had then. */
  predicate Issues(h: History, i: nat, t: string)
    requires i < |h.events|
  {
    var e := h.events[i];
    e.SignIn? && e.token == t && Held(h, i, e.username) == Some(HashOf(e.password))
  }

  /** The event at j ends the sessions of account u. */
  predicate Revokes(h: History, j: nat, u: string)
    requires j < |h.events|
  {
    var held := Held(h, j, u);
    match h.events[j]
    case Delete(username, _) => username == u && u != ADMIN && held.Some?
    case ChangePassword(username, current, password, _) =>
      username == u && ValidPassword(password) && held == Some(HashOf(current))
    case Reset(username, password, _) => username == u && held.Some? && ValidPassword(password)
    case _ => false
  }

  /** The event at j logs t out, issues it anew, or revokes the account u. */
  predicate Ends(h: History, j: nat, t: string, u: string)
    requires j < |h.events|
  {
    h.events[j] == SignOut(t) || Issues(h, j, t) || Revokes(h, j, u)
  }

  /** The login at i issued t, and nothing ended that session before n. */
  ghost predicate Lives(h: History, i: nat, n: nat, t: string)
    requires i < n <= |h.events|
  {
    Issues(h, i, t) && forall j | i < j < n :: !Ends(h, j, t, h.events[i].username)
  }

  function Expiry(h: History, i: nat): nat
    requires i < |h.events| && h.events[i].SignIn?
  {
    h.events[i].at + h.ttl
  }

  /** Some authentication between i and n found the session of the login at i expired. */
  ghost predicate Purged(h: History, i: nat, n: nat)
    requires i < n <= |h.events| && h.events[i].SignIn?
  {
    exists j | i < j < n :: h.events[j].Check? && h.events[j].at >= Expiry(h, i)
  }

  /** What one event does to the session under t. */
  lemma SessionStep(h: History, n: nat, t: string)
    requires n < |h.events|
    ensures var before, after, e := After(h, n).sessions, After(h, n + 1).sessions, h.events[n];
            && (Issues(h, n, t) ==> t in after && after[t] == Record(e.username, Expiry(h, n)))
            && (!Issues(h, n, t) ==>
                  && (t in after <==>
                        t in before && !Ends(h, n, t, before[t].username) && !(e.Check? && e.at >= before[t].expiresAt))
                  && (t in after ==> after[t] == before[t]))
  {
    hide ValidUsername, ValidPassword, IsBlank, Held;
    HeldIsExact(h, n, Subject(h.events[n]));
  }

  ghost predicate SessionFits(h: History, n: nat, t: string)
    requires n <= |h.events|
  {
    && (forall i: nat | i < n && Lives(h, i, n, t) && !Purged(h, i, n) ::
          && t in After(h, n).sessions
          && After(h, n).sessions[t] == Record(h.events[i].username, Expiry(h, i)))
    && (t in After(h, n).sessions ==> exists i: nat | i < n :: Lives(h, i, n, t) && !Purged(h, i, n))
  }

  lemma LivesStep(h: History, i: nat, n: nat, t: string)
    requires i < n < |h.events|
    ensures Lives(h, i, n + 1, t) <==> Lives(h, i, n, t) && !Ends(h, n, t, h.events[i].username)
    ensures h.events[i].SignIn? ==>
              (Purged(h, i, n + 1) <==> Purged(h, i, n) || (h.events[n].Check? && h.events[n].at >= Expiry(h, i)))
  {
    hide Issues, Ends;
  }

  lemma SessionForward(h: History, n: nat, t: string, i: nat)
    requires n < |h.events| && SessionFits(h, n, t)
    requires i < n + 1 && Lives(h, i, n + 1, t) && !Purged(h, i, n + 1)
    ensures t in After(h, n + 1).sessions
    ensures After(h, n + 1).sessions[t] == Record(h.events[i].username, Expiry(h, i))
  {
    hide After, Revokes, Held;
    SessionStep(h, n, t);
    if i < n {
      LivesStep(h, i, n, t);
    }
  }

  lemma SessionBackward(h: History, n: nat, t: string) returns (i: nat)
    requires n < |h.events| && SessionFits(h, n, t) && t in After(h, n + 1).sessions
    ensures i < n + 1 && Lives(h, i, n + 1, t) && !Purged(h, i, n + 1)
  {
    hide After, Revokes, Held;
    SessionStep(h, n, t);
    if Issues(h, n, t) {
      i := n;
    } else {
      i :| i < n && Lives(h, i, n, t) && !Purged(h, i, n);
      LivesStep(h, i, n, t);
    }
  }

  lemma {:induction false} SessionsAreExact(h: History, n: nat, t: string)
    requires n <= |h.events|
    ensures SessionFits(h, n, t)
  {
    hide After, Ends, Held;
    if n == 0 {
      NoSessionsAtFirst(h, t);
    } else {
      SessionsAreExact(h, n - 1, t);
      forall i: nat | i < n && Lives(h, i, n, t) && !Purged(h, i, n)
        ensures t in After(h, n).sessions && After(h, n).sessions[t] == Record(h.events[i].username, Expiry(h, i))
      {
        SessionForward(h, n - 1, t, i);
      }
      if t in After(h, n).sessions {
        var i := SessionBackward(h, n - 1, t);
      }
    }
  }

  lemma NoSessionsAtFirst(h: History, t: string)
    ensures SessionFits(h, 0, t)
  {
  }

  /** The clock never ran past now. */
  predicate NotBefore(events: seq<Event>, now: nat) {
    forall j | 0 <= j < |events| && events[j].Check? :: events[j].at <= now
  }

  /**
   * Authentication succeeds exactly when a login issued the token less than the time to live ago, and
   * since then the token was not logged out or issued anew and its account not deleted, reset or given a
   * new password.  The answer shows the account as it is now.
   */
  lemma AuthenticateIsExact(h: History, t: string, now: nat)
    requires HasAdmin(h.loaded) && NotBefore(h.events, now)
    ensures var n := |h.events|;
            var answer := Authenticate(After(h, n), t, now).1;
            && (answer.Signed? <==> exists i: nat | i < n :: Lives(h, i, n, t) && now < Expiry(h, i))
            && (!answer.Signed? ==> answer == Refused("REMOTE_AUTH_SESSION_INVALID"))
            && (forall i: nat | i < n && Lives(h, i, n, t) && now < Expiry(h, i) ::
                  && h.events[i].username in After(h, n).users
                  && var user := After(h, n).users[h.events[i].username];
                     answer == Signed(Session(t, user.username, user.role, user.devices, user.passwordChangeRequired)))
  {
    hide After, Ends, Held, HasAdmin;
    var n := |h.events|;
    AlwaysSound(h, n);
    SessionsAreExact(h, n, t);
    forall i: nat | i < n && Lives(h, i, n, t) && now < Expiry(h, i)
      ensures !Purged(h, i, n)
    {
    }
    if Authenticate(After(h, n), t, now).1.Signed? {
      var i: nat :| i < n && Lives(h, i, n, t) && !Purged(h, i, n);
      assert After(h, n).sessions[t] == Record(h.events[i].username, Expiry(h, i));
    }
  }

  // ---------------------------------------------------------------- accounts

  /** The event at j creates or deletes account u. */
  predicate Makes(h: History, j: nat, u: string)
    requires j < |h.events|
  {
    var held := Held(h, j, u);
    match h.events[j]
    case Create(username, password, _) => username == u && ValidUsername(u) && ValidPassword(password) && held.None?
    case Delete(username, _) => username == u && u != ADMIN && held.Some?
    case _ => false
  }

  /** The event at j gives account u a password. */
  predicate SetsPassword(h: History, j: nat, u: string)
    requires j < |h.events|
  {
    (h.events[j].Create? && Makes(h, j, u)) || (!h.events[j].Delete? && Revokes(h, j, u))
  }

  /** The event at j decides whether account u may use device d. */
  predicate SetsAccess(h: History, j: nat, u: string, d: string)
    requires j < |h.events|
  {
    match h.events[j]
    case Create(_, _, _) => Makes(h, j, u)
    case SetAccess(username, device, _, _) => username == u && device == d && !IsBlank(d) && Held(h, j, u).Some?
    case _ => false
  }

  /** What one event does to the existence and the role of account u. */
  lemma AccountStep(h: History, n: nat, u: string)
    requires n < |h.events|
    ensures var before, after, e := After(h, n).users, After(h, n + 1).users, h.events[n];
            && (u in after <==> if Makes(h, n, u) then e.Create? else u in before)
            && (u in after ==> after[u].role == if Makes(h, n, u) then User else before[u].role)
  {
    hide ValidUsername, ValidPassword, IsBlank, Held, Perform;
    HeldIsExact(h, n, u);
    AccountAfter(After(h, n), h.ttl, h.events[n], u);
  }

  /** What one event does to the password of account u. */
  lemma PasswordStep(h: History, n: nat, u: string)
    requires n < |h.events| && u in After(h, n + 1).users
    ensures var before, after, e := After(h, n).users, After(h, n + 1).users, h.events[n];
            if SetsPassword(h, n, u)
            then after[u].secret == HashOf(e.password) && after[u].passwordChangeRequired == e.Reset?
            else
              && u in before && after[u].secret == before[u].secret
              && after[u].passwordChangeRequired == before[u].passwordChangeRequired
  {
    hide ValidUsername, ValidPassword, IsBlank, Held, Perform;
    HeldIsExact(h, n, u);
    AccountAfter(After(h, n), h.ttl, h.events[n], u);
  }

  /** What one event does to the access of account u to device d. */
  lemma AccessStep(h: History, n: nat, u: string, d: string)
    requires n < |h.events| && u in After(h, n + 1).users
    ensures var before, after, e := After(h, n).users, After(h, n + 1).users, h.events[n];
            if SetsAccess(h, n, u, d) then d in after[u].devices <==> e.SetAccess? && e.granted
            else u in before && (d in after[u].devices <==> d in before[u].devices)
  {
    hide ValidUsername, ValidPassword, IsBlank, Held, Perform;
    HeldIsExact(h, n, u);
    AccountAfter(After(h, n), h.ttl, h.events[n], u);
  }

  /** An account exists exactly when the latest event that made or deleted it made it; i is -1 if there was none. */
  lemma {:induction false} AccountIsLatest(h: History, i: int, n: nat, u: string)
    requires -1 <= i < n <= |h.events| || (i == -1 && n == 0)
    requires i >= 0 ==> Makes(h, i, u)
    requires forall j | i < j < n :: !Makes(h, j, u)
    ensures u in After(h, n).users <==> if i < 0 then u in h.loaded else h.events[i].Create?
    ensures u in After(h, n).users ==>
              After(h, n).users[u].role == if i < 0 then h.loaded[u].role else User
  {
    hide After, Makes;
    if n == 0 {
      AtFirst(h);
    } else {
      AccountStep(h, n - 1, u);
      if i < n - 1 {
        AccountIsLatest(h, i, n - 1, u);
      }
    }
  }

  lemma AtFirst(h: History)
    ensures After(h, 0) == State(h.loaded, map[])
  {
  }

  /** An account's password is the latest one it was given, to be changed exactly if that was a reset. */
  lemma {:induction false} PasswordIsLatest(h: History, i: int, n: nat, u: string)
    requires -1 <= i < n <= |h.events| || (i == -1 && n == 0)
    requires i >= 0 ==> SetsPassword(h, i, u)
    requires forall j | i < j < n :: !SetsPassword(h, j, u)
    requires u in After(h, n).users
    ensures if i < 0 then u in h.loaded && After(h, n).users[u].secret == h.loaded[u].secret
            else After(h, n).users[u].secret == HashOf(h.events[i].password)
                 && After(h, n).users[u].passwordChangeRequired == h.events[i].Reset?
  {
    hide After, SetsPassword;
    if n == 0 {
      AtFirst(h);
    } else {
      PasswordStep(h, n - 1, u);
      if i < n - 1 {
        assert !SetsPassword(h, n - 1, u);
        PasswordIsLatest(h, i, n - 1, u);
      }
    }
  }

  /** An account may use a device exactly when the latest decision about the two granted it; creation grants nothing. */
  lemma {:induction false} AccessIsLatest(h: History, i: int, n: nat, u: string, d: string)
    requires -1 <= i < n <= |h.events| || (i == -1 && n == 0)
    requires i >= 0 ==> SetsAccess(h, i, u, d)
    requires forall j | i < j < n :: !SetsAccess(h, j, u, d)
    requires u in After(h, n).users
    ensures d in After(h, n).users[u].devices <==>
              if i < 0 then u in h.loaded && d in h.loaded[u].devices else h.events[i].SetAccess? && h.events[i].granted
  {
    hide After, SetsAccess;
    if n == 0 {
      AtFirst(h);
    } else {
      AccessStep(h, n - 1, u, d);
      if i < n - 1 {
        assert !SetsAccess(h, n - 1, u, d);
        AccessIsLatest(h, i, n - 1, u, d);
      }
    }
  }

  // ---------------------------------------------------------------- signing in

  /** A login succeeds exactly for an existing account and the password its secret was made from. */
  lemma LoginIff(s: State, ttl: nat, username: string, password: string, token: string, now: nat)
    ensures var (after, answer) := Login(s, ttl, username, password, token, now);
            if username in s.users && s.users[username].secret == HashOf(password)
            then
              var user := s.users[username];
              && answer == Signed(Session(token, user.username, user.role, user.devices, user.passwordChangeRequired))
              && after == State(s.users, s.sessions[token := Record(username, now + ttl)])
            else
              && after == s
              && answer == Refused(if username in s.users && s.users[username].secret == Unparseable
                                   then "REMOTE_AUTH_DATABASE_INVALID" else "REMOTE_AUTH_CREDENTIALS_INVALID")
  {
  }

  /**
   * After every history a login succeeds exactly if the account exists and the latest event that gave it a
   * password gave this one; a and i are the latest events that made or deleted the account and that gave it
   * a password, or -1 if there was none.
   */
  lemma SignInIsExact(h: History, a: int, i: int, u: string, password: string, token: string, now: nat)
    requires -1 <= a < |h.events| && (a >= 0 ==> Makes(h, a, u))
    requires forall j | a < j < |h.events| :: !Makes(h, j, u)
    requires -1 <= i < |h.events| && (i >= 0 ==> SetsPassword(h, i, u))
    requires forall j | i < j < |h.events| :: !SetsPassword(h, j, u)
    ensures var known := if a < 0 then u in h.loaded else h.events[a].Create?;
            var given := if i < 0 then u in h.loaded && h.loaded[u].secret == HashOf(password)
                         else h.events[i].password == password;
            Login(After(h, |h.events|), h.ttl, u, password, token, now).1.Signed? <==> known && given
  {
    hide After, Held, Login, Makes, ValidUsername, ValidPassword;
    var n := |h.events|;
    LoginIff(After(h, n), h.ttl, u, password, token, now);
    AccountIsLatest(h, a, n, u);
    if u in After(h, n).users {
      PasswordIsLatest(h, i, n, u);
    }
  }

  // ---------------------------------------------------------------- what is accepted

  /** Which names and passwords an account may have: ASCII letters, digits and three signs; 8 to 1024 bytes. */
  lemma CredentialsIff(username: string, password: string)
    ensures ValidUsername(username) <==>
              3 <= |username| <= 64 && forall i | 0 <= i < |username| :: NameCode(username[i] as int)
    ensures ValidPassword(password) <==> 7 < ByteLength(password) < 1025
  {
    forall i | 0 <= i < |username|
      ensures username[i] in username
      ensures UsernameCharacter(username[i]) <==> NameCode(username[i] as int)
    {
      CharacterIff(username[i]);
    }
  }

  predicate NameCode(code: int) {
    97 <= code <= 122 || 65 <= code <= 90 || 48 <= code <= 57 || code == 45 || code == 46 || code == 95
  }

  lemma CharacterIff(c: char)
    ensures UsernameCharacter(c) <==> NameCode(c as int)
  {
    assert 'a' as int == 97 && 'z' as int == 122 && 'A' as int == 65 && 'Z' as int == 90;
    assert '0' as int == 48 && '9' as int == 57 && '-' as int == 45 && '.' as int == 46 && '_' as int == 95;
    assert c == (c as int) as char;
  }

  /** Bytes add up, one to four for each character as the UTF-8 encoding has them. */
  lemma {:induction false} BytesAddUp(a: string, b: string, c: char)
    ensures ByteLength(a + b) == ByteLength(a) + ByteLength(b)
    ensures var code := c as int;
            ByteLength([c]) == (if code > 127 then 1 else 0) + (if code > 2047 then 1 else 0)
                               + (if code > 65535 then 1 else 0) + 1
  {
    if a == "" {
      assert a + b == b;
    } else {
      assert (a + b)[1..] == a[1..] + b;
      BytesAddUp(a[1..], b, c);
    }
  }

  /** A database is opened exactly if it is absent and could be written, or of this version with its administrator. */
  lemma LoadIff(file: File, saved: bool)
    ensures var r := LoadedUsers(file, saved);
            && (r.Success? <==>
                  || (file.Missing? && saved)
                  || (file.Parsed? && file.version == 1 && "admin" in file.users
                      && file.users["admin"].role == Admin && file.users["admin"].builtIn))
            && (r.Success? ==>
                  r.value == if file.Parsed? then file.users
                             else map["admin" := Account("admin", HashOf("admin"), Admin, {}, true, true)])
            && (r.Failure? ==>
                  r.error == match file
                             case Missing => "REMOTE_AUTH_WRITE_FAILED"
                             case Unreadable => "REMOTE_AUTH_READ_FAILED"
                             case _ => "REMOTE_AUTH_DATABASE_INVALID")
  {
  }

  // ---------------------------------------------------------------- saving

  function WithSaved(e: Event, saved: bool): Event
    requires Writes(e)
  {
    e.(saved := saved)
  }

  /**
   * Whether the database could be saved decides the answer and nothing else: an accepted change is kept in
   * memory and reported as failed; a refused one changes nothing and is refused alike.
   */
  lemma SavingDecidesOnlyTheAnswer(s: State, ttl: nat, e: Event)
    requires Writes(e)
    ensures var (kept, answer) := Perform(s, ttl, WithSaved(e, true));
            var (keptToo, failed) := Perform(s, ttl, WithSaved(e, false));
            && keptToo == kept
            && (answer.Refused? ==> failed == answer && kept == s)
            && (failed == Refused("REMOTE_AUTH_WRITE_FAILED") <==> !answer.Refused?)
  {
    hide ValidUsername, ValidPassword, IsBlank;
  }

  /** From a fresh database: an account whose creation was reported as failed signs in. */
  lemma UnsavedAccountSignsIn(ttl: nat, now: nat)
    ensures var h := History(
              FRESH, ttl, [Create("user", "12345678", false), SignIn("user", "12345678", "token", now)]);
            && Perform(After(h, 0), ttl, h.events[0]).1 == Refused("REMOTE_AUTH_WRITE_FAILED")
            && Perform(After(h, 1), ttl, h.events[1]).1.Signed?
  {
    hide ValidUsername, ValidPassword;
    var h := History(FRESH, ttl, [Create("user", "12345678", false), SignIn("user", "12345678", "token", now)]);
    PlainCredentials();
    assert After(h, 1) == Perform(After(h, 0), ttl, h.events[0]).0;
    assert After(h, 0) == State(FRESH, map[]);
    assert "user" !in FRESH;
  }

  lemma PlainCredentials()
    ensures ValidUsername("user") && ValidPassword("12345678")
  {
    assert ByteLength("8") == 1;
    assert "78"[1..] == "8" && "678"[1..] == "78" && "5678"[1..] == "678" && "45678"[1..] == "5678";
    assert "345678"[1..] == "45678" && "2345678"[1..] == "345678" && "12345678"[1..] == "2345678";
    assert ByteLength("678") == 3;
    assert ByteLength("45678") == 5;
    assert ByteLength("2345678") == 7;
  }
}
