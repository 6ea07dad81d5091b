/** The authentication service of internal/auth/service.go: users, sessions and recorded login
    failures, each method a few SQL statements at times that never decrease. The ghost log lists the
    statements; `Valid` ties the tables to it. Fresh tokens, salts and times are inputs. */
module Auth {
  import opened Prelude
  import opened Authz
  import opened AuthLog
  import opened Throttle

  const PASSWORD_MIN_LEN := 8
  const PASSWORD_MAX_LEN := 128

  datatype Account = Account(username: string, role: string, passwordHash: string, passwordChangedAt: int)

  datatype AuthError = TooManyAttempts | InvalidCredentials | PasswordPolicy | UsernamePolicy | UsernameTaken | Internal

  /** The now() of up to four statements of a request, in order. */
  datatype Moments = Moments(t1: int, t2: int, t3: int, t4: int) {
    predicate Ordered() {
      t1 <= t2 <= t3 <= t4
    }
  }

  /** Where an injected database error strikes ChangePassword. */
  datatype ChangeFault = NoFault | OnUpdate | OnRevoke | OnCreate

  predicate PolicyLength(password: bytes) {
    PASSWORD_MIN_LEN <= |password| <= PASSWORD_MAX_LEN
  }

  /** ^[a-z0-9][a-z0-9_.-]{2,31}$ */
  predicate ValidUsername(s: string) {
    && 3 <= |s| <= 32 && Alphanumeric(s[0])
    && forall k :: 1 <= k < |s| ==> Alphanumeric(s[k]) || s[k] == '_' || s[k] == '.' || s[k] == '-'
  }

  predicate Alphanumeric(c: char) {
    'a' <= c <= 'z' || '0' <= c <= '9'
  }

  /** Which usernames are accepted: 3 to 32 characters, each a lower-case letter, a digit or one of
      the three marks, and the first no mark. */
  lemma UsernamesExactly(s: string)
    ensures ValidUsername(s) <==>
      && 3 <= |s| <= 32 && s[0] !in "_.-"
      && forall k :: 0 <= k < |s| ==> 'a' <= s[k] <= 'z' || '0' <= s[k] <= '9' || s[k] in "_.-"
  {
  }

  /** The folds over one more statement. */
  lemma OneMoreStatement(log: Log, e: Event)
    ensures SessionsOf(log + [e]) == SessionStep(SessionsOf(log), e)
    ensures FailuresOf(log + [e]) == FailureStep(FailuresOf(log), e)
    ensures PasswordsOf(log + [e])
         == if Sets(e) then PasswordsOf(log)[e.user := Password(e.hash, e.at)] else PasswordsOf(log)
    ensures forall request ::
      Known(log + [e], request) == if Own(e, request) then Some((e.user, e.hash)) else Known(log, request)
    ensures !e.Recorded? && !e.Cleared? ==>
      forall name, addr, t :: Throttled(log + [e], name, addr, t) <==> Throttled(log, name, addr, t)
    ensures !Sets(e) ==> forall h :: NewHash(log, h) ==> NewHash(log + [e], h)
    ensures Clock(log + [e]) == e.at
    ensures forall token :: Fresh(log, token) && !(e.Issued? && e.token == token) ==> Fresh(log + [e], token)
  {
    assert (log + [e])[..|log|] == log && (log + [e])[|log|] == e;
    forall token | Fresh(log, token) && !(e.Issued? && e.token == token)
      ensures Fresh(log + [e], token)
    {
      forall i
        ensures !IssuedAt(log + [e], i, token)
      {
        assert !IssuedAt(log, i, token);
      }
    }
  }

  /** A statement that may come next keeps the history lawful and the logins guarded. */
  lemma StatementRuns(log: Log, e: Event)
    requires Lawful(log) && Guarded(log) && Next(log, e) && LetThrough(log, e)
    ensures Lawful(log + [e]) && Guarded(log + [e])
  {
    LawfulNext(log, e);
    GuardedNext(log, e);
  }

  /** A session row belongs to the user it was issued to. */
  lemma RowOwner(log: Log, token: Token)
    requires Lawful(log) && token in SessionsOf(log)
    ensures forall i :: InForce(log, i, token) ==> log[i].user == SessionsOf(log)[token].user
    ensures exists i :: InForce(log, i, token)
  {
    TableTellsAlways(log, token);
    var i :| RowOf(log, i, token, SessionsOf(log)[token]);
    forall j | InForce(log, j, token)
      ensures i == j
    {
      OneIssue(log, token, i, j);
    }
  }

  /** Changing a password and revoking the user's sessions leaves every open session current. */
  lemma ChangeThenRevoke(log: Log, request: Token, user: UserId, hash: string, t1: int, t2: int)
    requires Lawful(log) && Current(log)
    ensures Current(log + [Changed(request, user, hash, t1)] + [Revoked(user, t2)])
  {
    var e := Changed(request, user, hash, t1);
    var mid, log' := log + [e], log + [e] + [Revoked(user, t2)];
    OneMoreStatement(log, e);
    OneMoreStatement(mid, Revoked(user, t2));
    forall i, token | InForce(log', i, token)
      ensures OpenedAgainst(log', i)
    {
      assert log'[|mid|] == Revoked(user, t2) && log'[|log|] == e;
      assert i < |log| && log'[i] == log[i] && log[i].user != user;
      assert forall j :: i < j < |log| ==> log'[j] == log[j];
      assert InForce(log, i, token);
    }
  }

  /** Changing a password alone leaves every open session current exactly when the user has none. */
  lemma ChangeAlone(log: Log, request: Token, user: UserId, hash: string, t: int)
    requires Lawful(log) && Current(log) && Next(log, Changed(request, user, hash, t))
    ensures Current(log + [Changed(request, user, hash, t)]) <==> SessionsOfUser(SessionsOf(log), user) == {}
  {
    var e := Changed(request, user, hash, t);
    var log' := log + [e];
    OneMoreStatement(log, e);
    OldHashIsOld(log, user, hash);
    if SessionsOfUser(SessionsOf(log), user) == {} {
      forall i, token | InForce(log, i, token)
        ensures log[i].user != user
      {
        TableTellsAlways(log, token);
        RowOwner(log, token);
        assert token in SessionsOf(log) && token !in SessionsOfUser(SessionsOf(log), user);
      }
      CurrentStep(log, e);
    } else {
      SomeMember(SessionsOfUser(SessionsOf(log), user));
      var token :| token in SessionsOfUser(SessionsOf(log), user);
      RowOwner(log, token);
      var i :| InForce(log, i, token);
      assert OpenedAgainst(log, i);
      assert log'[i] == log[i] && log'[|log|] == e && InForce(log', i, token);
      assert !OpenedAgainst(log', i);
    }
  }

  /** The users table holds the passwords of the history, and usernames are unique. */
  ghost predicate AccountsTell(users: map<UserId, Account>, log: Log) {
    && users.Keys == PasswordsOf(log).Keys
    && (forall u :: u in users ==>
          && users[u].passwordHash == PasswordsOf(log)[u].hash
          && users[u].passwordChangedAt == PasswordsOf(log)[u].changedAt)
    && (forall u, v :: u in users && v in users && users[u].username == users[v].username ==> u == v)
  }

  lemma VerdictCases(verdict: Option<bool>)
    ensures verdict == None || verdict == Some(true) || verdict == Some(false)
  {
    match verdict
    case None =>
    case Some(ok) => if ok { } else { }
  }

  class Service {
    const hash: (bytes, bytes) -> string         // HashPassword, with its salt
    const verify: (bytes, string) -> Option<bool> // VerifyPassword; None is an error
    var users: map<UserId, Account>
    var sessions: map<Token, Session>
    var failures: seq<LoginFailure>
    ghost var log: Log

    ghost predicate Valid()
      reads this
    {
      && Lawful(log) && Guarded(log)
      && sessions == SessionsOf(log) && failures == FailuresOf(log) && AccountsTell(users, log)
      && (forall k :: k in sessions ==> sessions[k].user in users)
    }

    /** A service on tables with a history; NewService starts from whatever the database holds. */
    constructor (hash: (bytes, bytes) -> string, verify: (bytes, string) -> Option<bool>, users: map<UserId, Account>,
                 sessions: map<Token, Session>, failures: seq<LoginFailure>, ghost log: Log)
      requires Lawful(log) && Guarded(log) && sessions == SessionsOf(log) && failures == FailuresOf(log)
      requires AccountsTell(users, log) && forall k :: k in sessions ==> sessions[k].user in users
      ensures Valid() && this.log == log && this.users == users
      ensures this.sessions == sessions && this.failures == failures
    {
      this.hash, this.verify := hash, verify;
      this.users, this.sessions, this.failures, this.log := users, sessions, failures, log;
    }

    /** The insert of a new account. */
    method AddAccount(id: UserId, username: string, password: bytes, salt: bytes, t: int) returns (r: Option<AuthError>)
      requires Valid() && Clock(log) <= t && id !in users && NewHash(log, hash(password, salt))
      modifies this`users, this`log
      ensures Valid() && (old(Current(log)) ==> Current(log))
      ensures r == Some(UsernamePolicy) <==> !ValidUsername(username)
      ensures r == Some(PasswordPolicy) <==> ValidUsername(username) && !(8 <= |password| <= 128)
      ensures r == Some(UsernameTaken) <==> ValidUsername(username) && 8 <= |password| <= 128
                                            && exists u :: u in old(users) && old(users)[u].username == username
      ensures r.None? || r.value in {UsernamePolicy, PasswordPolicy, UsernameTaken}
      ensures r.Some? ==> users == old(users) && log == old(log)
      ensures r.None? ==>
        && users == old(users)[id := Account(username, "user", hash(password, salt), t)]
        && log == old(log) + [Created(id, hash(password, salt), t)]
    {
      if !ValidUsername(username) { return Some(UsernamePolicy); }
      if !PolicyLength(password) { return Some(PasswordPolicy); }
      if exists u :: u in users && users[u].username == username { return Some(UsernameTaken); }
      ghost var e := Created(id, hash(password, salt), t);
      OneMoreStatement(log, e);
      StatementRuns(log, e);
      NoSessionOf(id);
      if Current(log) { CurrentStep(log, e); }
      users := users[id := Account(username, "user", hash(password, salt), t)];
      log := log + [e];
      r := None;
    }

    /** Nobody has a session before having an account. */
    lemma NoSessionOf(id: UserId)
      requires Valid() && id !in users
      ensures forall i, token :: InForce(log, i, token) ==> log[i].user != id
    {
      forall i, token | InForce(log, i, token)
        ensures log[i].user != id
      {
        TableTellsAlways(log, token);
        RowOwner(log, token);
        assert token in sessions;
      }
    }

    /** Prunes, then counts. */
    method IsThrottled(name: string, addr: string, t1: int, t2: int) returns (r: bool)
      requires Valid() && Clock(log) <= t1 <= t2
      modifies this`failures, this`log
      ensures Valid() && (old(Current(log)) ==> Current(log))
      ensures log == old(log) + [Pruned(t1)]
      ensures r <==> Throttled(log, name, addr, t2)
      ensures r <==> Throttled(old(log), name, addr, t2)
    {
      OneMoreStatement(log, Pruned(t1));
      StatementRuns(log, Pruned(t1));
      if Current(log) { CurrentStep(log, Pruned(t1)); }
      failures := Keep(failures, Since(t1 - THROTTLE_WINDOW));
      log := log + [Pruned(t1)];
      VerdictOfHistory(log, name, addr, t2);
      r := Count(failures, ByUser(name), t2 - THROTTLE_WINDOW) >= THROTTLE_USER_MAX
        || Count(failures, ByAddr(addr), t2 - THROTTLE_WINDOW) >= THROTTLE_ADDR_MAX;
    }

    method LoginFailed(name: string, addr: string, ghost checkedAt: int, t: int)
      requires Valid() && LetThrough(log, Recorded(name, addr, checkedAt, t))
      modifies this`failures, this`log
      ensures Valid() && (old(Current(log)) ==> Current(log))
      ensures log == old(log) + [Recorded(name, addr, checkedAt, t)]
    {
      ghost var e := Recorded(name, addr, checkedAt, t);
      OneMoreStatement(log, e);
      StatementRuns(log, e);
      if Current(log) { CurrentStep(log, e); }
      failures := failures + [LoginFailure(ByUser(name), t), LoginFailure(ByAddr(addr), t)];
      log := log + [e];
    }

    method ClearFailures(name: string, ghost addr: string, ghost checkedAt: int, ghost t: int)
      requires Valid() && LetThrough(log, Cleared(name, addr, checkedAt, t))
      modifies this`failures, this`log
      ensures Valid() && (old(Current(log)) ==> Current(log))
      ensures log == old(log) + [Cleared(name, addr, checkedAt, t)]
    {
      ghost var e := Cleared(name, addr, checkedAt, t);
      OneMoreStatement(log, e);
      StatementRuns(log, e);
      if Current(log) { CurrentStep(log, e); }
      failures := Keep(failures, OtherThan(ByUser(name)));
      log := log + [e];
    }

    method CreateSession(user: UserId, token: Token, t: int)
      requires Valid() && Clock(log) <= t && user in users && Fresh(log, token)
      requires Known(log, token) == Some((user, users[user].passwordHash))
      modifies this`sessions, this`log
      ensures Valid()
      ensures log == old(log) + [Issued(token, user, users[user].passwordHash, t)]
      ensures sessions == old(sessions)[token := Session(user, t, t + SESSION_ABSOLUTE_TTL, t)]
      ensures old(Current(log)) && users[user].passwordChangedAt <= t ==> Current(log)
    {
      ghost var e := Issued(token, user, users[user].passwordHash, t);
      OneMoreStatement(log, e);
      StatementRuns(log, e);
      if Current(log) && users[user].passwordChangedAt <= t { CurrentStep(log, e); }
      sessions := sessions[token := Session(user, t, t + SESSION_ABSOLUTE_TTL, t)];
      log := log + [e];
    }

    /** SELECT password_hash: what the request will rely on. */
    method ReadPassword(id: UserId, ghost request: Token, ghost t: int) returns (stored: string)
      requires Valid() && Clock(log) <= t && id in users
      modifies this`log
      ensures Valid() && (old(Current(log)) ==> Current(log))
      ensures stored == users[id].passwordHash && log == old(log) + [ReadHash(request, id, stored, t)]
    {
      stored := users[id].passwordHash;
      ghost var e := ReadHash(request, id, stored, t);
      OneMoreStatement(log, e);
      StatementRuns(log, e);
      if Current(log) { CurrentStep(log, e); }
      log := log + [e];
    }

    /** The two writes of a successful login. */
    method LetIn(id: UserId, token: Token, ghost addr: string, ghost checkedAt: int, t3: int, t4: int)
      requires Valid() && t3 <= t4 && id in users && Fresh(log, token)
      requires LetThrough(log, Cleared(users[id].username, addr, checkedAt, t3))
      requires Known(log, token) == Some((id, users[id].passwordHash))
      modifies this`sessions, this`failures, this`log
      ensures Valid() && (old(Current(log)) ==> Current(log))
      ensures log == old(log) + [Cleared(users[id].username, addr, checkedAt, t3),
                                 Issued(token, id, users[id].passwordHash, t4)]
      ensures sessions == old(sessions)[token := Session(id, t4, t4 + SESSION_ABSOLUTE_TTL, t4)]
    {
      ChangedInThePast(id);
      OneMoreStatement(log, Cleared(users[id].username, addr, checkedAt, t3));
      ClearFailures(users[id].username, addr, checkedAt, t3);
      CreateSession(id, token, t4);
    }

    /** The check of the password, and what follows from it: in, with the failures cleared and a
        fresh session; a failure recorded; or an error. */
    method LogInAccount(id: UserId, password: bytes, addr: string, token: Token, m: Moments)
      returns (r: Result<User, AuthError>)
      requires Valid() && m.Ordered() && Clock(log) <= m.t2 && Fresh(log, token) && id in users
      requires !Throttled(log, users[id].username, addr, m.t2)
      modifies this`sessions, this`failures, this`log
      ensures Valid() && (old(Current(log)) ==> Current(log))
      ensures verify(password, users[id].passwordHash) == None ==>
        && r == Failure(Internal) && sessions == old(sessions)
        && log == old(log) + [ReadHash(token, id, users[id].passwordHash, m.t2)]
      ensures verify(password, users[id].passwordHash) == Some(false) ==>
        && r == Failure(InvalidCredentials) && sessions == old(sessions)
        && log == old(log) + [ReadHash(token, id, users[id].passwordHash, m.t2)]
                  + [Recorded(users[id].username, addr, m.t2, m.t3)]
      ensures verify(password, users[id].passwordHash) == Some(true) ==>
        && r == Success(User(id, users[id].username, users[id].role))
        && sessions == old(sessions)[token := Session(id, m.t4, m.t4 + SESSION_ABSOLUTE_TTL, m.t4)]
        && log == old(log) + [ReadHash(token, id, users[id].passwordHash, m.t2)]
                  + [Cleared(users[id].username, addr, m.t2, m.t3),
                     Issued(token, id, users[id].passwordHash, m.t4)]
    {
      OneMoreStatement(log, ReadHash(token, id, users[id].passwordHash, m.t2));
      var stored := ReadPassword(id, token, m.t2);
      var verdict := verify(password, stored);
      if verdict.None? { return Failure(Internal); }
      if !verdict.value {
        LoginFailed(users[id].username, addr, m.t2, m.t3);
        return Failure(InvalidCredentials);
      }
      LetIn(id, token, addr, m.t2, m.t3, m.t4);
      r := Success(User(id, users[id].username, users[id].role));
    }

    /** A login that the throttle lets through. */
    method LogInNamed(name: string, password: bytes, addr: string, token: Token, m: Moments)
      returns (r: Result<User, AuthError>)
      requires Valid() && m.Ordered() && Clock(log) <= m.t2 && Fresh(log, token)
      requires !Throttled(log, name, addr, m.t2)
      modifies this`sessions, this`failures, this`log
      ensures Valid() && (old(Current(log)) ==> Current(log))
      ensures r.Success? <==>
        exists u :: u in users && users[u].username == name && verify(password, users[u].passwordHash) == Some(true)
      ensures r == Failure(InvalidCredentials) <==>
        forall u :: u in users && users[u].username == name ==> verify(password, users[u].passwordHash) == Some(false)
      ensures r.Failure? ==> r.error in {InvalidCredentials, Internal} && sessions == old(sessions)
      ensures forall u :: r.Success? && u in users && users[u].username == name ==>
        && r.value == User(u, name, users[u].role)
        && sessions == old(sessions)[token := Session(u, m.t4, m.t4 + SESSION_ABSOLUTE_TTL, m.t4)]
        && log == old(log) + [ReadHash(token, u, users[u].passwordHash, m.t2)]
                  + [Cleared(name, addr, m.t2, m.t3), Issued(token, u, users[u].passwordHash, m.t4)]
      ensures r == Failure(InvalidCredentials) && (forall u :: u in users ==> users[u].username != name) ==>
        log == old(log) + [Recorded(name, addr, m.t2, m.t3)]
      ensures forall u :: r == Failure(InvalidCredentials) && u in users && users[u].username == name ==>
        log == old(log) + [ReadHash(token, u, users[u].passwordHash, m.t2)] + [Recorded(name, addr, m.t2, m.t3)]
      ensures forall u :: r == Failure(Internal) && u in users && users[u].username == name ==>
        log == old(log) + [ReadHash(token, u, users[u].passwordHash, m.t2)]
    {
      if u :| u in users && users[u].username == name {
        ghost var verdict := verify(password, users[u].passwordHash);
        VerdictCases(verdict);
        r := LogInAccount(u, password, addr, token, m);
        assert forall v :: v in users && users[v].username == name ==> v == u;
      } else {
        LoginFailed(name, addr, m.t2, m.t3);
        r := Failure(InvalidCredentials);
      }
    }

    /** A login: refused while throttled, with nothing recorded; otherwise let in exactly with a
        password that verifies against the hash of the account of that name. Wrong passwords and
        unknown names are refused alike and one failure is recorded; only a success opens a session. */
    method Login(name: string, password: bytes, addr: string, token: Token, m: Moments)
      returns (r: Result<User, AuthError>)
      requires Valid() && m.Ordered() && Clock(log) <= m.t1 && Fresh(log, token)
      modifies this`sessions, this`failures, this`log
      ensures Valid() && (old(Current(log)) ==> Current(log))
      ensures r == Failure(TooManyAttempts) <==> Throttled(old(log), name, addr, m.t2)
      ensures r.Success? <==>
        && !Throttled(old(log), name, addr, m.t2)
        && exists u :: u in users && users[u].username == name && verify(password, users[u].passwordHash) == Some(true)
      ensures r == Failure(InvalidCredentials) <==>
        && !Throttled(old(log), name, addr, m.t2)
        && forall u :: u in users && users[u].username == name ==>
                         verify(password, users[u].passwordHash) == Some(false)
      ensures r.Failure? ==> r.error in {TooManyAttempts, InvalidCredentials, Internal} && sessions == old(sessions)
      ensures forall u :: r.Success? && u in users && users[u].username == name ==>
        && r.value == User(u, name, users[u].role)
        && sessions == old(sessions)[token := Session(u, m.t4, m.t4 + SESSION_ABSOLUTE_TTL, m.t4)]
        && log == old(log) + [Pruned(m.t1)] + [ReadHash(token, u, users[u].passwordHash, m.t2)]
                  + [Cleared(name, addr, m.t2, m.t3), Issued(token, u, users[u].passwordHash, m.t4)]
      ensures r == Failure(TooManyAttempts) ==> log == old(log) + [Pruned(m.t1)]
      ensures r == Failure(InvalidCredentials) && (forall u :: u in users ==> users[u].username != name) ==>
        log == old(log) + [Pruned(m.t1)] + [Recorded(name, addr, m.t2, m.t3)]
      ensures forall u :: r == Failure(InvalidCredentials) && u in users && users[u].username == name ==>
        log == old(log) + [Pruned(m.t1)] + [ReadHash(token, u, users[u].passwordHash, m.t2)]
               + [Recorded(name, addr, m.t2, m.t3)]
      ensures forall u :: r == Failure(Internal) && u in users && users[u].username == name ==>
        log == old(log) + [Pruned(m.t1)] + [ReadHash(token, u, users[u].passwordHash, m.t2)]
    {
      var throttled := IsThrottled(name, addr, m.t1, m.t2);
      if throttled { return Failure(TooManyAttempts); }
      OneMoreStatement(old(log), Pruned(m.t1));
      r := LogInNamed(name, password, addr, token, m);
    }

    lemma ChangedInThePast(id: UserId)
      requires Valid() && id in users
      ensures users[id].passwordChangedAt <= Clock(log)
    {
      PasswordsAreOld(log, id);
    }

    /** Accepts a token exactly when the history promises it, and only then counts as activity. */
    method ValidateSession(presented: Option<Token>, t: int) returns (r: Option<User>)
      requires Valid() && Clock(log) <= t
      modifies this`sessions, this`log
      ensures Valid() && (old(Current(log)) ==> Current(log))
      ensures r.Some? <==> presented.Some? && Acceptable(old(log), presented.value, t)
      ensures log == old(log) + if presented.None? then []
                                else if r.Some? then [Seen(presented.value, t)] else [Refused(presented.value, t)]
      ensures r.Some? ==>
        r.value.id in users && r.value == User(r.value.id, users[r.value.id].username, users[r.value.id].role)
      ensures r.Some? ==> forall i :: InForce(old(log), i, presented.value) ==> r.value.id == old(log)[i].user
      ensures r.Some? ==>
        && presented.value in old(sessions)
        && sessions == old(sessions)[presented.value := old(sessions)[presented.value].(lastSeenAt := t)]
      ensures r.None? ==> sessions == old(sessions)
    {
      if presented.None? { return None; }
      var token := presented.value;
      TableAcceptsExactly(log, token, t);
      ghost var e := if RowAccepts(sessions, token, t) then Seen(token, t) else Refused(token, t);
      OneMoreStatement(log, e);
      StatementRuns(log, e);
      if Current(log) { CurrentStep(log, e); }
      r := None;
      if token in sessions && sessions[token].expiresAt > t && sessions[token].lastSeenAt > t - SESSION_IDLE_TTL {
        RowOwner(log, token);
        var id := sessions[token].user;
        sessions := sessions[token := sessions[token].(lastSeenAt := t)];
        r := Some(User(id, users[id].username, users[id].role));
      }
      log := log + [e];
    }

    method Logout(token: Token, t: int)
      requires Valid() && Clock(log) <= t
      modifies this`sessions, this`log
      ensures Valid() && (old(Current(log)) ==> Current(log))
      ensures log == old(log) + [LoggedOut(token, t)] && token !in sessions && sessions == old(sessions) - {token}
    {
      OneMoreStatement(log, LoggedOut(token, t));
      StatementRuns(log, LoggedOut(token, t));
      if Current(log) { CurrentStep(log, LoggedOut(token, t)); }
      sessions := sessions - {token};
      log := log + [LoggedOut(token, t)];
    }

    method SetPassword(id: UserId, newHash: string, ghost request: Token, t: int)
      requires Valid() && Next(log, Changed(request, id, newHash, t))
      modifies this`users, this`log
      ensures Valid() && log == old(log) + [Changed(request, id, newHash, t)]
      ensures users == old(users)[id := old(users)[id].(passwordHash := newHash, passwordChangedAt := t)]
      ensures old(Current(log)) ==> (Current(log) <==> SessionsOfUser(sessions, id) == {})
    {
      ghost var e := Changed(request, id, newHash, t);
      OneMoreStatement(log, e);
      StatementRuns(log, e);
      if Current(log) { ChangeAlone(log, request, id, newHash, t); }
      users := users[id := users[id].(passwordHash := newHash, passwordChangedAt := t)];
      log := log + [e];
    }

    method RevokeSessions(id: UserId, t: int)
      requires Valid() && Clock(log) <= t
      modifies this`sessions, this`log
      ensures Valid() && log == old(log) + [Revoked(id, t)]
      ensures sessions == old(sessions) - SessionsOfUser(old(sessions), id)
    {
      OneMoreStatement(log, Revoked(id, t));
      StatementRuns(log, Revoked(id, t));
      sessions := sessions - SessionsOfUser(sessions, id);
      log := log + [Revoked(id, t)];
    }

    /** New hash, then every session of the user deleted. */
    method SetAndRevoke(id: UserId, newHash: string, ghost request: Token, t1: int, t2: int)
      requires Valid() && Next(log, Changed(request, id, newHash, t1)) && t1 <= t2
      modifies this`users, this`sessions, this`log
      ensures Valid() && log == old(log) + [Changed(request, id, newHash, t1), Revoked(id, t2)]
      ensures sessions == old(sessions) - SessionsOfUser(old(sessions), id)
      ensures id in old(users)
        && users == old(users)[id := old(users)[id].(passwordHash := newHash, passwordChangedAt := t1)]
      ensures Known(log, request) == Some((id, newHash))
      ensures forall k :: Fresh(old(log), k) ==> Fresh(log, k)
      ensures old(Current(log)) ==> Current(log)
    {
      if Current(log) { ChangeThenRevoke(log, request, id, newHash, t1, t2); }
      OneMoreStatement(log, Changed(request, id, newHash, t1));
      SetPassword(id, newHash, request, t1);
      OneMoreStatement(log, Revoked(id, t2));
      RevokeSessions(id, t2);
      assert log == old(log) + [Changed(request, id, newHash, t1), Revoked(id, t2)];
    }

    /** What each fault leaves done: the new hash, the end of every session of the user, and the
        fresh session. */
    static predicate Replaced(users: map<UserId, Account>, sessions: map<Token, Session>, users': map<UserId, Account>,
                              sessions': map<Token, Session>, id: UserId, newHash: string, token: Token, m: Moments,
                              fault: ChangeFault) {
      && id in users
      && users' == (if fault == OnUpdate then users
                    else users[id := users[id].(passwordHash := newHash, passwordChangedAt := m.t2)])
      && (fault == OnUpdate || fault == OnRevoke ==> sessions' == sessions)
      && (fault == OnCreate || fault == NoFault ==>
            && (forall k :: k in sessions && sessions[k].user != id ==> k in sessions' && sessions'[k] == sessions[k])
            && (forall k :: k in sessions' && k != token ==> k in sessions && sessions[k].user != id))
      && (fault == OnCreate ==> token !in sessions')
      && (fault == NoFault ==>
            token in sessions' && sessions'[token] == Session(id, m.t4, m.t4 + SESSION_ABSOLUTE_TTL, m.t4))
    }

    static lemma OnlyFresh(users: map<UserId, Account>, sessions: map<Token, Session>, users': map<UserId, Account>,
                           sessions': map<Token, Session>, id: UserId, newHash: string, token: Token, m: Moments)
      requires Replaced(users, sessions, users', sessions', id, newHash, token, m, NoFault)
      ensures SessionsOfUser(sessions', id) == {token}
    {
      forall k | k in sessions' && k != token
        ensures sessions'[k].user != id
      {
        assert k in sessions && sessions[k].user != id;
      }
    }

    /** The three writes of ChangePassword, up to an injected fault. */
    method ReplacePassword(id: UserId, newHash: string, token: Token, m: Moments, fault: ChangeFault)
      requires Valid() && m.Ordered() && Fresh(log, token) && Next(log, Changed(token, id, newHash, m.t2))
      modifies this`users, this`sessions, this`log
      ensures Valid() && log == old(log) + ChangeEvents(id, newHash, token, m, fault)
      ensures Replaced(old(users), old(sessions), users, sessions, id, newHash, token, m, fault)
      ensures fault == NoFault ==> SessionsOfUser(sessions, id) == {token}
      ensures old(Current(log)) && fault != OnRevoke ==> Current(log)
      ensures old(Current(log)) && fault == OnRevoke ==> (Current(log) <==> SessionsOfUser(old(sessions), id) == {})
    {
      FreshHasNoRow(token);
      if fault == OnUpdate { return; }
      if fault == OnRevoke {
        SetPassword(id, newHash, token, m.t2);
        return;
      }
      SetAndRevoke(id, newHash, token, m.t2, m.t3);
      if fault == OnCreate { return; }
      CreateSession(id, token, m.t4);
      OnlyFresh(old(users), old(sessions), users, sessions, id, newHash, token, m);
    }

    /** A token that was not handed out has no row. */
    lemma FreshHasNoRow(token: Token)
      requires Valid() && Fresh(log, token)
      ensures token !in sessions
    {
      forall i
        ensures !InForce(log, i, token)
      {
        assert !IssuedAt(log, i, token);
      }
      if token in sessions { RowOwner(log, token); }
    }

    /** A change for an existing user, after the check of the new length: it goes through exactly
        with the right current password. */
    method ChangeKnown(id: UserId, current: bytes, newHash: string, token: Token, m: Moments, fault: ChangeFault)
      returns (r: Result<Token, AuthError>)
      requires Valid() && m.Ordered() && Clock(log) <= m.t1 && Fresh(log, token) && NewHash(log, newHash)
      requires id in users
      modifies this`users, this`sessions, this`log
      ensures Valid()
      ensures var stored := old(users)[id].passwordHash;
        if verify(current, stored) == Some(true) then
          && r == (if fault == NoFault then Success(token) else Failure(Internal))
          && Replaced(old(users), old(sessions), users, sessions, id, newHash, token, m, fault)
          && (fault == NoFault ==> SessionsOfUser(sessions, id) == {token})
          && log == old(log) + [ReadHash(token, id, stored, m.t1)] + ChangeEvents(id, newHash, token, m, fault)
        else
          && r == Failure(if verify(current, stored) == Some(false) then InvalidCredentials else Internal)
          && users == old(users) && sessions == old(sessions)
          && log == old(log) + [ReadHash(token, id, stored, m.t1)]
      ensures old(Current(log)) && fault != OnRevoke ==> Current(log)
      ensures old(Current(log)) && fault == OnRevoke && verify(current, old(users)[id].passwordHash) == Some(true) ==>
        (Current(log) <==> SessionsOfUser(old(sessions), id) == {})
    {
      OneMoreStatement(log, ReadHash(token, id, users[id].passwordHash, m.t1));
      var stored := ReadPassword(id, token, m.t1);
      var verdict := verify(current, stored);
      VerdictCases(verdict);
      if verdict.None? { return Failure(Internal); }
      if !verdict.value { return Failure(InvalidCredentials); }
      ReplacePassword(id, newHash, token, m, fault);
      r := if fault == NoFault then Success(token) else Failure(Internal);
    }

    /** On success the caller's fresh session is the user's only one and every session of the
        service is still current. A database error between the first two writes leaves old sessions
        open under the new password, exactly when the user had any. */
    method ChangePassword(u: User, current: bytes, next: bytes, salt: bytes, token: Token, m: Moments,
                          fault: ChangeFault)
      returns (r: Result<Token, AuthError>)
      requires Valid() && m.Ordered() && Clock(log) <= m.t1 && Fresh(log, token) && NewHash(log, hash(next, salt))
      modifies this`users, this`sessions, this`log
      ensures Valid()
      ensures r == Success(token) || (r.Failure? && r.error in {PasswordPolicy, InvalidCredentials, Internal})
      ensures r.Success? <==>
        && 8 <= |next| <= 128 && u.id in old(users) && fault == NoFault
        && verify(current, old(users)[u.id].passwordHash) == Some(true)
      ensures r == Failure(PasswordPolicy) <==> !(8 <= |next| <= 128)
      ensures r == Failure(InvalidCredentials) <==>
        8 <= |next| <= 128 && u.id in old(users) && verify(current, old(users)[u.id].passwordHash) == Some(false)
      ensures
        if 8 <= |next| <= 128 && u.id in old(users) && verify(current, old(users)[u.id].passwordHash) == Some(true)
        then Replaced(old(users), old(sessions), users, sessions, u.id, hash(next, salt), token, m, fault)
        else users == old(users) && sessions == old(sessions)
      ensures r.Success? ==> SessionsOfUser(sessions, u.id) == {token}
      ensures !(8 <= |next| <= 128 && u.id in old(users)) ==> log == old(log)
      ensures 8 <= |next| <= 128 && u.id in old(users) ==>
        var stored := old(users)[u.id].passwordHash;
        log == old(log) + [ReadHash(token, u.id, stored, m.t1)]
               + if verify(current, stored) == Some(true) then ChangeEvents(u.id, hash(next, salt), token, m, fault)
                 else []
      ensures old(Current(log)) && fault != OnRevoke ==> Current(log)
      ensures old(Current(log)) && fault == OnRevoke && 8 <= |next| <= 128 && u.id in old(users) ==>
        verify(current, old(users)[u.id].passwordHash) == Some(true) ==>
          (Current(log) <==> SessionsOfUser(old(sessions), u.id) == {})
    {
      if !PolicyLength(next) { return Failure(PasswordPolicy); }
      if u.id !in users { return Failure(Internal); }
      r := ChangeKnown(u.id, current, hash(next, salt), token, m, fault);
      ghost var read := [ReadHash(token, u.id, old(users)[u.id].passwordHash, m.t1)];
      assert old(log) + read + [] == old(log) + read;
    }
  }

  function ChangeEvents(id: UserId, newHash: string, token: Token, m: Moments, fault: ChangeFault): Log {
    if fault == OnUpdate then []
    else if fault == OnRevoke then [Changed(token, id, newHash, m.t2)]
    else if fault == OnCreate then [Changed(token, id, newHash, m.t2), Revoked(id, m.t3)]
    else [Changed(token, id, newHash, m.t2), Revoked(id, m.t3), Issued(token, id, newHash, m.t4)]
  }

  // ----- whole runs -----

  datatype Request =
    | AddRequest(id: UserId, username: string, password: bytes, salt: bytes, m: Moments)
    | LoginRequest(name: string, password: bytes, addr: string, token: Token, m: Moments)
    | ValidateRequest(presented: Option<Token>, m: Moments)
    | LogoutRequest(token: Token, m: Moments)
    | ChangeRequest(u: User, current: bytes, next: bytes, salt: bytes, token: Token, m: Moments)

  /** The token the request hands out, if it succeeds. */
  function NewToken(q: Request): Option<Token> {
    if q.LoginRequest? || q.ChangeRequest? then Some(q.token) else None
  }

  /** The hash the request stores, if it succeeds. */
  function StoredBy(hash: (bytes, bytes) -> string, q: Request): Option<string> {
    match q
    case AddRequest(_, _, password, salt, _) => Some(hash(password, salt))
    case ChangeRequest(_, _, next, salt, _, _) => Some(hash(next, salt))
    case _ => None
  }

  /** What one request may add to the log. */
  predicate Extends(hash: (bytes, bytes) -> string, before: Log, log: Log, q: Request) {
    && |log| >= |before| && log[..|before|] == before && Clock(log) <= q.m.t4
    && (forall k :: |before| <= k < |log| && log[k].Issued? ==> Some(log[k].token) == NewToken(q))
    && (forall k :: |before| <= k < |log| && Sets(log[k]) ==> Some(log[k].hash) == StoredBy(hash, q))
  }

  /** Statements of this request. */
  predicate Fits(hash: (bytes, bytes) -> string, events: Log, q: Request) {
    && (forall k :: 0 <= k < |events| ==> events[k].at <= q.m.t4)
    && (forall k :: 0 <= k < |events| && events[k].Issued? ==> Some(events[k].token) == NewToken(q))
    && (forall k :: 0 <= k < |events| && Sets(events[k]) ==> Some(events[k].hash) == StoredBy(hash, q))
  }

  lemma Appended(hash: (bytes, bytes) -> string, before: Log, events: Log, q: Request)
    requires Clock(before) <= q.m.t4 && Fits(hash, events, q)
    ensures Extends(hash, before, before + events, q)
  {
    if events != [] { assert (before + events)[|before + events| - 1] == events[|events| - 1]; }
  }

  lemma BothFit(hash: (bytes, bytes) -> string, before: Log, a: Log, b: Log, q: Request)
    requires Clock(before) <= q.m.t4 && Fits(hash, a, q) && Fits(hash, b, q)
    ensures Extends(hash, before, before + a + b, q)
  {
    Appended(hash, before, a + b, q);
    assert before + (a + b) == before + a + b;
  }

  /** The request comes after everything in the log, with a fresh token and salt. */
  ghost predicate Ready(hash: (bytes, bytes) -> string, log: Log, q: Request) {
    && q.m.Ordered() && Clock(log) <= q.m.t1
    && (NewToken(q).Some? ==> Fresh(log, NewToken(q).value))
    && (StoredBy(hash, q).Some? ==> NewHash(log, StoredBy(hash, q).value))
  }

  method PerformLogin(s: Service, q: Request)
    requires s.Valid() && Current(s.log) && q.LoginRequest? && Ready(s.hash, s.log, q)
    modifies s
    ensures s.Valid() && Current(s.log) && Extends(s.hash, old(s.log), s.log, q)
  {
    ghost var before := s.log;
    var r := s.Login(q.name, q.password, q.addr, q.token, q.m);
    if u :| u in s.users && s.users[u].username == q.name {
      LoginFits(s.hash, before, q, u, s.users[u].passwordHash);
    } else {
      LoginFits(s.hash, before, q, 0, "");
    }
  }

  /** Everything a login may add to the log. */
  lemma LoginFits(hash: (bytes, bytes) -> string, before: Log, q: Request, u: UserId, h: string)
    requires q.LoginRequest? && q.m.Ordered() && Clock(before) <= q.m.t1
    ensures var m, pruned, read := q.m, [Pruned(q.m.t1)], [ReadHash(q.token, u, h, q.m.t2)];
      var failed := [Recorded(q.name, q.addr, m.t2, m.t3)];
      && Extends(hash, before, before + pruned, q)
      && Extends(hash, before, before + pruned + failed, q)
      && Extends(hash, before, before + pruned + read, q)
      && Extends(hash, before, before + pruned + read + failed, q)
      && Extends(hash, before, before + pruned + read
           + [Cleared(q.name, q.addr, m.t2, m.t3), Issued(q.token, u, h, m.t4)], q)
  {
    var m, pruned, read := q.m, [Pruned(q.m.t1)], [ReadHash(q.token, u, h, q.m.t2)];
    var failed, into := [Recorded(q.name, q.addr, m.t2, m.t3)],
                        [Cleared(q.name, q.addr, m.t2, m.t3), Issued(q.token, u, h, m.t4)];
    assert Fits(hash, pruned, q) && Fits(hash, read, q) && Fits(hash, failed, q) && Fits(hash, into, q);
    Appended(hash, before, pruned, q);
    BothFit(hash, before, pruned, failed, q);
    BothFit(hash, before, pruned, read, q);
    AllFit(hash, before, pruned, read, failed, q);
    AllFit(hash, before, pruned, read, into, q);
  }

  lemma AllFit(hash: (bytes, bytes) -> string, before: Log, a: Log, b: Log, c: Log, q: Request)
    requires Clock(before) <= q.m.t4 && Fits(hash, a, q) && Fits(hash, b, q) && Fits(hash, c, q)
    ensures Extends(hash, before, before + a + b + c, q)
  {
    assert Fits(hash, a + b, q);
    BothFit(hash, before, a + b, c, q);
    Regroup(before, a, b);
  }

  method PerformChange(s: Service, q: Request)
    requires s.Valid() && Current(s.log) && q.ChangeRequest? && Ready(s.hash, s.log, q)
    modifies s
    ensures s.Valid() && Current(s.log) && Extends(s.hash, old(s.log), s.log, q)
  {
    ghost var stored := if q.u.id in s.users then s.users[q.u.id].passwordHash else "";
    ghost var read := PolicyLength(q.next) && q.u.id in s.users;
    ghost var changes := read && s.verify(q.current, stored) == Some(true);
    var r := s.ChangePassword(q.u, q.current, q.next, q.salt, q.token, q.m, NoFault);
    ChangeFits(s.hash, old(s.log), q, read, stored, changes);
  }

  lemma ChangeFits(hash: (bytes, bytes) -> string, before: Log, q: Request, read: bool, stored: string, changes: bool)
    requires q.ChangeRequest? && q.m.Ordered() && Clock(before) <= q.m.t1
    ensures Extends(hash, before,
      before + (if read then [ReadHash(q.token, q.u.id, stored, q.m.t1)] else [])
             + (if changes then ChangeEvents(q.u.id, hash(q.next, q.salt), q.token, q.m, NoFault) else []), q)
  {
    var a := if read then [ReadHash(q.token, q.u.id, stored, q.m.t1)] else [];
    var b := if changes then ChangeEvents(q.u.id, hash(q.next, q.salt), q.token, q.m, NoFault) else [];
    assert Fits(hash, a, q);
    ChangeEventsFit(hash, q);
    BothFit(hash, before, a, b, q);
  }

  lemma ChangeEventsFit(hash: (bytes, bytes) -> string, q: Request)
    requires q.ChangeRequest? && q.m.Ordered()
    ensures Fits(hash, ChangeEvents(q.u.id, hash(q.next, q.salt), q.token, q.m, NoFault), q)
  {
  }

  lemma OneFits(hash: (bytes, bytes) -> string, before: Log, e: Event, q: Request)
    requires q.m.Ordered() && Clock(before) <= q.m.t1 && e.at == q.m.t1 && !e.Issued?
    requires Sets(e) ==> Some(e.hash) == StoredBy(hash, q)
    ensures Extends(hash, before, before + [e], q) && Extends(hash, before, before, q)
  {
    Appended(hash, before, [e], q);
  }

  method PerformOther(s: Service, q: Request)
    requires s.Valid() && Current(s.log) && !q.LoginRequest? && !q.ChangeRequest? && Ready(s.hash, s.log, q)
    modifies s
    ensures s.Valid() && Current(s.log) && Extends(s.hash, old(s.log), s.log, q)
  {
    match q
    case AddRequest(id, username, password, salt, m) =>
      OneFits(s.hash, s.log, Created(id, s.hash(password, salt), m.t1), q);
      if id !in s.users { // gen_random_uuid
        var r := s.AddAccount(id, username, password, salt, m.t1);
      }
    case ValidateRequest(presented, m) =>
      ghost var token := if presented.Some? then presented.value else 0;
      OneFits(s.hash, s.log, Seen(token, m.t1), q);
      OneFits(s.hash, s.log, Refused(token, m.t1), q);
      var r := s.ValidateSession(presented, m.t1);
    case LogoutRequest(token, m) =>
      OneFits(s.hash, s.log, LoggedOut(token, m.t1), q);
      s.Logout(token, m.t1);
  }

  method Perform(s: Service, q: Request)
    requires s.Valid() && Current(s.log) && Ready(s.hash, s.log, q)
    modifies s
    ensures s.Valid() && Current(s.log) && Extends(s.hash, old(s.log), s.log, q)
  {
    if q.LoginRequest? {
      PerformLogin(s, q);
    } else if q.ChangeRequest? {
      PerformChange(s, q);
    } else {
      PerformOther(s, q);
    }
  }

  /** Requests one after the other, with different fresh tokens and salts. */
  ghost predicate Sequential(hash: (bytes, bytes) -> string, log: Log, script: seq<Request>) {
    && (forall i :: 0 <= i < |script| ==> Ready(hash, log, script[i]))
    && (forall i, j :: 0 <= i < j < |script| ==> Apart(hash, script[i], script[j]))
  }

  predicate Apart(hash: (bytes, bytes) -> string, q: Request, later: Request) {
    && q.m.t4 <= later.m.t1
    && (NewToken(later).Some? ==> NewToken(q) != NewToken(later))
    && (StoredBy(hash, later).Some? ==> StoredBy(hash, q) != StoredBy(hash, later))
  }

  /** A request that was ready stays so while the ones before it run. */
  lemma StaysReady(hash: (bytes, bytes) -> string, before: Log, log: Log, q: Request, later: Request)
    requires Ready(hash, before, later) && Apart(hash, q, later) && Extends(hash, before, log, q)
    ensures Ready(hash, log, later)
  {
    assert forall k :: 0 <= k < |before| ==> log[k] == before[k];
    if NewToken(later).Some? {
      var token := NewToken(later).value;
      forall k
        ensures !IssuedAt(log, k, token)
      {
        assert !IssuedAt(before, k, token);
      }
    }
  }

  /** In every sequential run the tables stand for a lawful history, and every open session was
      opened against the password its user has now. */
  method Serve(s: Service, script: seq<Request>)
    requires s.Valid() && Current(s.log) && Sequential(s.hash, s.log, script)
    modifies s
    ensures s.Valid() && Current(s.log)
    ensures |s.log| >= |old(s.log)| && s.log[..|old(s.log)|] == old(s.log)
  {
    ghost var start := s.log;
    for i := 0 to |script|
      invariant s.Valid() && Current(s.log)
      invariant |s.log| >= |start| && s.log[..|start|] == start
      invariant forall j :: i <= j < |script| ==> Ready(s.hash, s.log, script[j])
    {
      ghost var before := s.log;
      Perform(s, script[i]);
      assert forall k :: 0 <= k < |before| ==> s.log[k] == before[k];
      forall j | i + 1 <= j < |script|
        ensures Ready(s.hash, s.log, script[j])
      {
        StaysReady(s.hash, before, s.log, script[i], script[j]);
      }
    }
  }

  lemma {:induction false} PasswordsAreOld(log: Log, id: UserId)
    requires Lawful(log) && id in PasswordsOf(log)
    ensures PasswordsOf(log)[id].changedAt <= Clock(log)
  {
    var init := log[..|log| - 1];
    if id in PasswordsOf(init) { PasswordsAreOld(init, id); }
  }
}
