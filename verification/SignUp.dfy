/** The service of the module Auth with the password format of the module PasswordHash. */
module SignUp {
  import opened Prelude
  import opened Authz
  import opened AuthLog
  import opened Auth
  import opened Throttle
  import PasswordHash

  /** The service hashes and verifies passwords as internal/auth/password.go does. */
  ghost predicate UsesPhc(s: Service, kdf: PasswordHash.Kdf) {
    && PasswordHash.KeepsLength(kdf)
    && (forall pw, salt :: s.hash(pw, salt) == PasswordHash.HashPassword(kdf, pw, salt))
    && (forall pw, stored :: s.verify(pw, stored) == PasswordHash.VerifyPassword(kdf, pw, stored))
  }

  lemma OwnPassword(s: Service, kdf: PasswordHash.Kdf, password: bytes, salt: bytes)
    requires UsesPhc(s, kdf)
    ensures s.verify(password, s.hash(password, salt)) == Some(true)
  {
    PasswordHash.OwnPasswordVerifies(kdf, password, salt);
  }

  /** The right password logs in, unless the name or address is throttled. */
  method LogIn(s: Service, id: UserId, password: bytes, addr: string, token: Token, m: Moments)
    returns (r: Result<User, AuthError>)
    requires s.Valid() && id in s.users && s.verify(password, s.users[id].passwordHash) == Some(true)
    requires Clock(s.log) <= m.t1 && m.Ordered() && Fresh(s.log, token)
    modifies s`sessions, s`failures, s`log
    ensures var name := s.users[id].username;
      r == if Throttled(old(s.log), name, addr, m.t2) then Failure(TooManyAttempts)
           else Success(User(id, name, s.users[id].role))
  {
    r := s.Login(s.users[id].username, password, addr, token, m);
  }

  /** A new account can log in with its password at once. */
  method SignUpThenLogIn(s: Service, kdf: PasswordHash.Kdf, id: UserId, username: string, password: bytes, salt: bytes,
                         addr: string, token: Token, t: int, m: Moments)
    returns (r: Result<User, AuthError>)
    requires s.Valid() && UsesPhc(s, kdf)
    requires ValidUsername(username) && PolicyLength(password) && id !in s.users
    requires forall u :: u in s.users ==> s.users[u].username != username
    requires Clock(s.log) <= t <= m.t1 && m.Ordered() && Fresh(s.log, token)
    requires NewHash(s.log, s.hash(password, salt))
    modifies s
    ensures r == if Throttled(old(s.log), username, addr, m.t2) then Failure(TooManyAttempts)
                 else Success(User(id, username, "user"))
  {
    OneMoreStatement(s.log, Created(id, s.hash(password, salt), t));
    OwnPassword(s, kdf, password, salt);
    var refused := s.AddAccount(id, username, password, salt, t);
    r := LogIn(s, id, password, addr, token, m);
  }

  lemma OtherKeyIsRefused(s: Service, kdf: PasswordHash.Kdf, password: bytes, salt: bytes, wrong: bytes)
    requires UsesPhc(s, kdf)
    requires PasswordHash.StandardKey(kdf, wrong, salt) != PasswordHash.StandardKey(kdf, password, salt)
    ensures s.verify(wrong, s.hash(password, salt)) == Some(false)
  {
    PasswordHash.StandardVerifiesExactly(kdf, password, salt, wrong);
  }

  lemma FailureCounts(log: Log, a: Event, b: Event, name: string, addr: string, t2: int, t3: int)
    requires a.Pruned? && b.ReadHash?
    ensures var log' := log + [a] + [b] + [Recorded(name, addr, t2, t3)];
      && Times(log', ByUser(name)) == Times(log, ByUser(name)) + [t3]
      && Times(log', ByAddr(addr)) == Times(log, ByAddr(addr)) + [t3]
  {
    TimesOneMore(log, a, ByUser(name));
    TimesOneMore(log, a, ByAddr(addr));
    TimesOneMore(log + [a], b, ByUser(name));
    TimesOneMore(log + [a], b, ByAddr(addr));
    TimesOneMore(log + [a] + [b], Recorded(name, addr, t2, t3), ByUser(name));
    TimesOneMore(log + [a] + [b], Recorded(name, addr, t2, t3), ByAddr(addr));
  }

  /** A password that derives another key is refused, whoever presents it, and one failure is counted
      under the name and one under the address; no session is opened. */
  method WrongPassword(s: Service, kdf: PasswordHash.Kdf, id: UserId, password: bytes, salt: bytes, wrong: bytes,
                       addr: string, token: Token, m: Moments)
    returns (r: Result<User, AuthError>)
    requires s.Valid() && UsesPhc(s, kdf) && id in s.users && s.users[id].passwordHash == s.hash(password, salt)
    requires PasswordHash.StandardKey(kdf, wrong, salt) != PasswordHash.StandardKey(kdf, password, salt)
    requires Clock(s.log) <= m.t1 && m.Ordered() && Fresh(s.log, token)
    modifies s`sessions, s`failures, s`log
    ensures var name := s.users[id].username;
      r == if Throttled(old(s.log), name, addr, m.t2) then Failure(TooManyAttempts) else Failure(InvalidCredentials)
    ensures s.sessions == old(s.sessions)
    ensures var name := s.users[id].username;
      r == Failure(InvalidCredentials) ==>
        && Times(s.log, ByUser(name)) == Times(old(s.log), ByUser(name)) + [m.t3]
        && Times(s.log, ByAddr(addr)) == Times(old(s.log), ByAddr(addr)) + [m.t3]
  {
    ghost var before, name := s.log, s.users[id].username;
    OtherKeyIsRefused(s, kdf, password, salt, wrong);
    r := s.Login(s.users[id].username, wrong, addr, token, m);
    assert forall u :: u in s.users && s.users[u].username == name ==> u == id;
    if r == Failure(InvalidCredentials) {
      FailureCounts(before, Pruned(m.t1), ReadHash(token, id, s.users[id].passwordHash, m.t2), name, addr, m.t2, m.t3);
    }
  }
}
