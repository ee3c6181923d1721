/**
 * Remote accounts and their login sessions.
 *
 * Password hashing is ideal: a hash is verified by exactly the password it was made from.  Fresh tokens,
 * the clock and the outcome of writing the database file are parameters.
 */
module RemoteAccounts {
  import opened Common
  import opened Text

  const ADMIN := "admin"
  const DATABASE_VERSION: nat := 1

  datatype Role = Admin | User

  datatype Secret = HashOf(password: string) | Unparseable

  datatype Account = Account(
    username: string, secret: Secret, role: Role, devices: set<string>, builtIn: bool, passwordChangeRequired: bool)

  datatype PublicAccount = PublicAccount(
    username: string, role: Role, devices: set<string>, builtIn: bool, passwordChangeRequired: bool)

  datatype Session = Session(
    token: string, username: string, role: Role, devices: set<string>, passwordChangeRequired: bool)

  datatype Record = Record(username: string, expiresAt: nat)

  datatype State = State(users: map<string, Account>, sessions: map<string, Record>)

  datatype File = Missing | Unreadable | Malformed | Parsed(version: nat, users: map<string, Account>)

  datatype Answer = Signed(session: Session) | View(account: PublicAccount) | Done | Refused(code: string)

  function SessionOf(token: string, user: Account): Session {
    Session(token, user.username, user.role, user.devices, user.passwordChangeRequired)
  }

  function Public(user: Account): PublicAccount {
    PublicAccount(user.username, user.role, user.devices, user.builtIn, user.passwordChangeRequired)
  }

  // ---------------------------------------------------------------- validation

  predicate UsernameCharacter(c: char) {
    'a' <= c <= 'z' || 'A' <= c <= 'Z' || IsDigit(c) || c == '.' || c == '_' || c == '-'
  }

  predicate ValidUsername(username: string) {
    3 <= |username| <= 64 && forall c | c in username :: UsernameCharacter(c)
  }

  /** Length in bytes of the UTF-8 encoding. */
  function ByteLength(s: string): nat {
    if s == "" then 0
    else
      ByteLength(s[1..])
      + if s[0] < '\U{80}' then 1 else if s[0] < '\U{800}' then 2 else if s[0] < '\U{10000}' then 3 else 4
  }

  predicate ValidPassword(password: string) {
    8 <= ByteLength(password) <= 1024
  }

  /** The complaint about a password that does not match. */
  function Mismatch(secret: Secret, password: string): Option<string> {
    if secret.Unparseable? then Some("REMOTE_AUTH_DATABASE_INVALID")
    else if secret.password != password then Some("REMOTE_AUTH_CREDENTIALS_INVALID")
    else None
  }

  // ---------------------------------------------------------------- operations

  function Unexpired(sessions: map<string, Record>, now: nat): map<string, Record> {
    map t | t in sessions && sessions[t].expiresAt > now :: sessions[t]
  }

  function WithoutUser(sessions: map<string, Record>, username: string): map<string, Record> {
    map t | t in sessions && sessions[t].username != username :: sessions[t]
  }

  function Persisted(saved: bool, answer: Answer): Answer {
    if saved then answer else Refused("REMOTE_AUTH_WRITE_FAILED")
  }

  function LoginError(s: State, username: string, password: string): Option<string> {
    if username !in s.users then Some("REMOTE_AUTH_CREDENTIALS_INVALID")
    else Mismatch(s.users[username].secret, password)
  }

  function Login(s: State, ttl: nat, username: string, password: string, token: string, now: nat): (State, Answer) {
    match LoginError(s, username, password)
    case Some(code) => (s, Refused(code))
    case None =>
      (s.(sessions := s.sessions[token := Record(username, now + ttl)]), Signed(SessionOf(token, s.users[username])))
  }

  function Authenticate(s: State, token: string, now: nat): (State, Answer) {
    var live := Unexpired(s.sessions, now);
    (s.(sessions := live),
     if token in live && live[token].username in s.users then Signed(SessionOf(token, s.users[live[token].username]))
     else Refused("REMOTE_AUTH_SESSION_INVALID"))
  }

  function Logout(s: State, token: string): (State, Answer) {
    (s.(sessions := s.sessions - {token}), Done)
  }

  function NewUser(username: string, password: string): Account {
    Account(username, HashOf(password), User, {}, false, false)
  }

  function CreateUser(s: State, username: string, password: string, saved: bool): (State, Answer) {
    if !ValidUsername(username) then (s, Refused("REMOTE_AUTH_USERNAME_INVALID"))
    else if !ValidPassword(password) then (s, Refused("REMOTE_AUTH_PASSWORD_INVALID"))
    else if username in s.users then (s, Refused("REMOTE_AUTH_USER_EXISTS"))
    else
      (s.(users := s.users[username := NewUser(username, password)]),
       Persisted(saved, View(Public(NewUser(username, password)))))
  }

  function DeleteUser(s: State, username: string, saved: bool): (State, Answer) {
    if username == ADMIN then (s, Refused("REMOTE_AUTH_BUILTIN_USER_IMMUTABLE"))
    else if username !in s.users then (s, Refused("REMOTE_AUTH_USER_NOT_FOUND"))
    else (State(s.users - {username}, WithoutUser(s.sessions, username)), Persisted(saved, Done))
  }

  /** Both password operations: a new secret, and every session of the account is over. */
  function WithPassword(s: State, username: string, password: string, changeRequired: bool): State
    requires username in s.users
  {
    State(
      s.users[username := s.users[username].(secret := HashOf(password), passwordChangeRequired := changeRequired)],
      WithoutUser(s.sessions, username))
  }

  function ChangeError(s: State, username: string, current: string, password: string): Option<string> {
    if !ValidPassword(password) then Some("REMOTE_AUTH_PASSWORD_INVALID")
    else if username !in s.users then Some("REMOTE_AUTH_USER_NOT_FOUND")
    else Mismatch(s.users[username].secret, current)
  }

  function ChangeOwnPassword(
      s: State, username: string, current: string, password: string, saved: bool): (State, Answer) {
    match ChangeError(s, username, current, password)
    case Some(code) => (s, Refused(code))
    case None => (WithPassword(s, username, password, false), Persisted(saved, Done))
  }

  function ResetPassword(s: State, username: string, password: string, saved: bool): (State, Answer) {
    if !ValidPassword(password) then (s, Refused("REMOTE_AUTH_PASSWORD_INVALID"))
    else if username !in s.users then (s, Refused("REMOTE_AUTH_USER_NOT_FOUND"))
    else (WithPassword(s, username, password, true), Persisted(saved, Done))
  }

  function WithDevice(user: Account, device: string, granted: bool): Account {
    user.(devices := if granted then user.devices + {device} else user.devices - {device})
  }

  function SetDeviceAccess(s: State, username: string, device: string, granted: bool, saved: bool): (State, Answer) {
    if IsBlank(device) then (s, Refused("REMOTE_AUTH_DEVICE_ID_INVALID"))
    else if username !in s.users then (s, Refused("REMOTE_AUTH_USER_NOT_FOUND"))
    else
      var user := WithDevice(s.users[username], device, granted);
      (s.(users := s.users[username := user]), Persisted(saved, View(Public(user))))
  }

  /** The built-in administrator is there and is one. */
  predicate HasAdmin(users: map<string, Account>) {
    ADMIN in users && users[ADMIN].role == Admin && users[ADMIN].builtIn
  }

  const FRESH := map[ADMIN := Account(ADMIN, HashOf("admin"), Admin, {}, true, true)]

  function LoadedUsers(file: File, saved: bool): Result<map<string, Account>, string> {
    match file
    case Missing => if saved then Success(FRESH) else Failure("REMOTE_AUTH_WRITE_FAILED")
    case Unreadable => Failure("REMOTE_AUTH_READ_FAILED")
    case Malformed => Failure("REMOTE_AUTH_DATABASE_INVALID")
    case Parsed(version, users) =>
      if version == DATABASE_VERSION && HasAdmin(users) then Success(users) else Failure("REMOTE_AUTH_DATABASE_INVALID")
  }

  class AccountManager {
    const ttl: nat
    var users: map<string, Account>
    var sessions: map<string, Record>

    constructor (ttl: nat, users: map<string, Account>)
      ensures this.ttl == ttl && Current() == State(users, map[])
    {
      this.ttl := ttl;
      this.users := users;
      sessions := map[];
    }

    function Current(): State
      reads this
    {
      State(users, sessions)
    }

    static method Load(file: File, saved: bool, ttl: nat) returns (r: Result<AccountManager, string>)
      ensures match LoadedUsers(file, saved)
              case Success(users) => r.Success? && fresh(r.value) && r.value.ttl == ttl
                  && r.value.Current() == State(users, map[])
              case Failure(code) => r == Failure(code)
    {
      var users := FRESH;
      if file.Unreadable? {
        return Failure("REMOTE_AUTH_READ_FAILED");
      } else if file.Malformed? {
        return Failure("REMOTE_AUTH_DATABASE_INVALID");
      } else if file.Parsed? {
        if file.version != DATABASE_VERSION || !HasAdmin(file.users) {
          return Failure("REMOTE_AUTH_DATABASE_INVALID");
        }
        users := file.users;
      } else if !saved {
        return Failure("REMOTE_AUTH_WRITE_FAILED");
      }
      var manager := new AccountManager(ttl, users);
      r := Success(manager);
    }

    method SignIn(username: string, password: string, token: string, now: nat) returns (r: Answer)
      modifies this
      ensures (Current(), r) == Login(old(Current()), ttl, username, password, token, now)
    {
      if username !in users {
        return Refused("REMOTE_AUTH_CREDENTIALS_INVALID");
      }
      var user := users[username];
      var mismatch := Mismatch(user.secret, password);
      if mismatch.Some? {
        return Refused(mismatch.value);
      }
      sessions := sessions[token := Record(username, now + ttl)];
      r := Signed(SessionOf(token, user));
    }

    method Check(token: string, now: nat) returns (r: Answer)
      modifies this
      ensures (Current(), r) == Authenticate(old(Current()), token, now)
    {
      sessions := map t | t in sessions && sessions[t].expiresAt > now :: sessions[t];
      if token !in sessions {
        return Refused("REMOTE_AUTH_SESSION_INVALID");
      }
      var username := sessions[token].username;
      if username !in users {
        return Refused("REMOTE_AUTH_SESSION_INVALID");
      }
      r := Signed(SessionOf(token, users[username]));
    }

    method SignOut(token: string) returns (r: Answer)
      modifies this
      ensures (Current(), r) == Logout(old(Current()), token)
    {
      sessions := sessions - {token};
      r := Done;
    }

    /** Like every writing operation, this one keeps the change in memory even when saving it fails. */
    method Create(username: string, password: string, saved: bool) returns (r: Answer)
      modifies this
      ensures (Current(), r) == CreateUser(old(Current()), username, password, saved)
    {
      if !ValidUsername(username) {
        return Refused("REMOTE_AUTH_USERNAME_INVALID");
      }
      if !ValidPassword(password) {
        return Refused("REMOTE_AUTH_PASSWORD_INVALID");
      }
      if username in users {
        return Refused("REMOTE_AUTH_USER_EXISTS");
      }
      var user := Account(username, HashOf(password), User, {}, false, false);
      users := users[username := user];
      r := if saved then View(Public(user)) else Refused("REMOTE_AUTH_WRITE_FAILED");
    }

    method EndSessionsOf(username: string)
      modifies this`sessions
      ensures sessions == WithoutUser(old(sessions), username)
    {
      sessions := map t | t in sessions && sessions[t].username != username :: sessions[t];
    }

    method Delete(username: string, saved: bool) returns (r: Answer)
      modifies this
      ensures (Current(), r) == DeleteUser(old(Current()), username, saved)
    {
      if username == ADMIN {
        return Refused("REMOTE_AUTH_BUILTIN_USER_IMMUTABLE");
      }
      if username !in users {
        return Refused("REMOTE_AUTH_USER_NOT_FOUND");
      }
      users := users - {username};
      EndSessionsOf(username);
      r := if saved then Done else Refused("REMOTE_AUTH_WRITE_FAILED");
    }

    method ChangePassword(username: string, current: string, password: string, saved: bool) returns (r: Answer)
      modifies this
      ensures (Current(), r) == ChangeOwnPassword(old(Current()), username, current, password, saved)
    {
      if !ValidPassword(password) {
        return Refused("REMOTE_AUTH_PASSWORD_INVALID");
      }
      if username !in users {
        return Refused("REMOTE_AUTH_USER_NOT_FOUND");
      }
      var mismatch := Mismatch(users[username].secret, current);
      if mismatch.Some? {
        return Refused(mismatch.value);
      }
      users := users[username := users[username].(secret := HashOf(password))];
      users := users[username := users[username].(passwordChangeRequired := false)];
      assert users == WithPassword(old(Current()), username, password, false).users;
      EndSessionsOf(username);
      r := if saved then Done else Refused("REMOTE_AUTH_WRITE_FAILED");
    }

    method Reset(username: string, password: string, saved: bool) returns (r: Answer)
      modifies this
      ensures (Current(), r) == ResetPassword(old(Current()), username, password, saved)
    {
      if !ValidPassword(password) {
        return Refused("REMOTE_AUTH_PASSWORD_INVALID");
      }
      if username !in users {
        return Refused("REMOTE_AUTH_USER_NOT_FOUND");
      }
      users := users[username := users[username].(secret := HashOf(password))];
      users := users[username := users[username].(passwordChangeRequired := true)];
      assert users == WithPassword(old(Current()), username, password, true).users;
      EndSessionsOf(username);
      r := if saved then Done else Refused("REMOTE_AUTH_WRITE_FAILED");
    }

    method SetAccess(username: string, device: string, granted: bool, saved: bool) returns (r: Answer)
      modifies this
      ensures (Current(), r) == SetDeviceAccess(old(Current()), username, device, granted, saved)
    {
      if IsBlank(device) {
        return Refused("REMOTE_AUTH_DEVICE_ID_INVALID");
      }
      if username !in users {
        return Refused("REMOTE_AUTH_USER_NOT_FOUND");
      }
      var user := users[username];
      if granted {
        user := user.(devices := user.devices + {device});
      } else {
        user := user.(devices := user.devices - {device});
      }
      users := users[username := user];
      r := if saved then View(Public(user)) else Refused("REMOTE_AUTH_WRITE_FAILED");
    }
  }
}
