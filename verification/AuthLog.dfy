/** The history of the authentication tables of internal/auth/service.go: one event for each SQL
    statement that ran. What the tables must hold is defined here from the whole history, and
    independently of it as folds over the statements; the class Service of the module Auth keeps
    the folds. Times are microseconds, and `at` is the now() of the statement. */
module AuthLog {
  import opened Prelude
  import opened Authz

  /** Stands for the SHA-256 hash of an opaque token; tokens are random and never reused. A login
      or password change is known by the token it will hand out. */
  type Token = int

  const MINUTE := 60_000_000
  const THROTTLE_WINDOW := 15 * MINUTE
  const THROTTLE_USER_MAX := 10
  const THROTTLE_ADDR_MAX := 30
  const SESSION_IDLE_TTL := 30 * MINUTE
  const SESSION_ABSOLUTE_TTL := 240 * MINUTE

  /** "u:" + username and "ip:" + address. */
  datatype FailureKey = ByUser(name: string) | ByAddr(addr: string) {
    function Text(): string {
      match this
      case ByUser(name) => "u:" + name
      case ByAddr(addr) => "ip:" + addr
    }

    function Max(): nat {
      if ByUser? then THROTTLE_USER_MAX else THROTTLE_ADDR_MAX
    }
  }

  /** Keys of the table never mix up two users, two addresses, or a user and an address. */
  lemma KeyTextInjective(a: FailureKey, b: FailureKey)
    requires a.Text() == b.Text()
    ensures a == b
  {
    assert a.Text()[0] == b.Text()[0];
    if a.ByUser? {
      assert a.Text()[2..] == a.name && b.Text()[2..] == b.name;
    } else {
      assert a.Text()[3..] == a.addr && b.Text()[3..] == b.addr;
    }
  }

  datatype Event =
    | Created(user: UserId, hash: string, at: int)                  // account
    | ReadHash(request: Token, user: UserId, hash: string, at: int) // login or password change looks up the user
    | Changed(request: Token, user: UserId, hash: string, at: int)  // password change stores the new hash
    | Issued(token: Token, user: UserId, against: string, at: int)  // session opened on the strength of that hash
    | Seen(token: Token, at: int)                                   // session accepted
    | Refused(token: Token, at: int)
    | LoggedOut(token: Token, at: int)
    | Revoked(user: UserId, at: int)                                // every session of the user deleted
    | Pruned(at: int)
    | Recorded(name: string, addr: string, checkedAt: int, at: int) // failed login, throttle checked before
    | Cleared(name: string, addr: string, checkedAt: int, at: int)  // successful login, throttle checked before

  type Log = seq<Event>

  function Clock(log: Log): int {
    if log == [] then 0 else log[|log| - 1].at
  }

  // ----- what a history promises -----

  predicate IssuedAt(log: Log, i: int, token: Token) {
    0 <= i < |log| && log[i].Issued? && log[i].token == token
  }

  predicate Ends(e: Event, issue: Event)
    requires issue.Issued?
  {
    (e.LoggedOut? && e.token == issue.token) || (e.Revoked? && e.user == issue.user)
  }

  /** Token issued at `i`, and since then neither logged out nor revoked. */
  ghost predicate InForce(log: Log, i: int, token: Token) {
    IssuedAt(log, i, token) && forall j :: i < j < |log| ==> !Ends(log[j], log[i])
  }

  predicate Sighting(e: Event, token: Token) {
    (e.Issued? && e.token == token) || (e.Seen? && e.token == token)
  }

  ghost predicate SightedAfter(log: Log, token: Token, since: int) {
    exists k :: 0 <= k < |log| && Sighting(log[k], token) && log[k].at > since
  }

  /** The promise of a session: issued less than the absolute lifetime ago, active less than the
      idle timeout ago, and not ended since. */
  ghost predicate Acceptable(log: Log, token: Token, t: int) {
    exists i ::
      && InForce(log, i, token)
      && t < log[i].at + SESSION_ABSOLUTE_TTL
      && SightedAfter(log, token, t - SESSION_IDLE_TTL)
  }

  /** The failed logins that count for a key: of a user since the last success, of an address all. */
  function Times(log: Log, key: FailureKey): seq<int> {
    if log == [] then [] else TimesStep(Times(log[..|log| - 1], key), log[|log| - 1], key)
  }

  function TimesStep(times: seq<int>, e: Event, key: FailureKey): seq<int> {
    if e.Recorded? && (key == ByUser(e.name) || key == ByAddr(e.addr)) then times + [e.at]
    else if e.Cleared? && key == ByUser(e.name) then []
    else times
  }

  function CountSince(times: seq<int>, since: int): nat {
    if times == [] then 0
    else CountSince(times[..|times| - 1], since) + if times[|times| - 1] >= since then 1 else 0
  }

  /** As many failures as the limit, within the window that ends at `t`. */
  predicate Full(log: Log, key: FailureKey, t: int) {
    CountSince(Times(log, key), t - THROTTLE_WINDOW) >= key.Max()
  }

  predicate Throttled(log: Log, name: string, addr: string, t: int) {
    Full(log, ByUser(name), t) || Full(log, ByAddr(addr), t)
  }

  ghost predicate Fresh(log: Log, token: Token) {
    forall i :: !IssuedAt(log, i, token)
  }

  datatype Password = Password(hash: string, changedAt: int)

  predicate Sets(e: Event) {
    e.Created? || e.Changed?
  }

  /** The password columns of the users table after these statements. */
  function PasswordsOf(log: Log): map<UserId, Password> {
    if log == [] then map[]
    else
      var before, e := PasswordsOf(log[..|log| - 1]), log[|log| - 1];
      if Sets(e) then before[e.user := Password(e.hash, e.at)] else before
  }

  /** Salts are random: no stored hash comes up twice. */
  ghost predicate NewHash(log: Log, hash: string) {
    forall k :: 0 <= k < |log| && Sets(log[k]) ==> log[k].hash != hash
  }

  /** The hash a user has is one that was stored. */
  lemma {:induction false} OldHashIsOld(log: Log, user: UserId, hash: string)
    requires user in PasswordsOf(log) && NewHash(log, hash)
    ensures PasswordsOf(log)[user].hash != hash
  {
    var init, e := log[..|log| - 1], log[|log| - 1];
    if !(Sets(e) && e.user == user) {
      assert forall k :: 0 <= k < |init| ==> init[k] == log[k];
      OldHashIsOld(init, user, hash);
    }
  }

  /** A statement by which a request learns the hash of its user: its read, or its own change. */
  predicate Own(e: Event, request: Token) {
    (e.ReadHash? || e.Changed?) && e.request == request
  }

  /** What a request last learned: the user and the hash. */
  function Known(log: Log, request: Token): Option<(UserId, string)> {
    if log == [] then None
    else
      var e := log[|log| - 1];
      if Own(e, request) then Some((e.user, e.hash)) else Known(log[..|log| - 1], request)
  }

  /** The event may come next, in any interleaving of requests: time does not run backwards, a
      read gives what the table holds, tokens are new and handed out on the strength of what their
      request learned, and sessions are accepted exactly when they should be. */
  ghost predicate Next(log: Log, e: Event) {
    && Clock(log) <= e.at
    && match e
       case Created(user, hash, _) => user !in PasswordsOf(log) && NewHash(log, hash)
       case ReadHash(_, user, hash, _) => user in PasswordsOf(log) && hash == PasswordsOf(log)[user].hash
       case Changed(request, user, hash, _) =>
         && NewHash(log, hash) && user in PasswordsOf(log)
         && Known(log, request).Some? && Known(log, request).value.0 == user
       case Issued(token, user, against, _) => Fresh(log, token) && Known(log, token) == Some((user, against))
       case Seen(token, at) => Acceptable(log, token, at)
       case Refused(token, at) => !Acceptable(log, token, at)
       case _ => true
  }

  ghost predicate Lawful(log: Log) {
    log == [] || (Lawful(log[..|log| - 1]) && Next(log[..|log| - 1], log[|log| - 1]))
  }

  /** Logins one after the other: a failure is recorded and a success clears only after a check
      that let the login through, made when the statements before had run. */
  ghost predicate LetThrough(log: Log, e: Event) {
    e.Recorded? || e.Cleared? ==> Clock(log) <= e.checkedAt <= e.at && !Throttled(log, e.name, e.addr, e.checkedAt)
  }

  ghost predicate Guarded(log: Log) {
    log == [] || (Guarded(log[..|log| - 1]) && LetThrough(log[..|log| - 1], log[|log| - 1]))
  }

  lemma GuardedNext(log: Log, e: Event)
    requires Guarded(log) && LetThrough(log, e)
    ensures Guarded(log + [e])
  {
    assert (log + [e])[..|log|] == log;
  }

  lemma LawfulNext(log: Log, e: Event)
    requires Lawful(log) && Next(log, e)
    ensures Lawful(log + [e])
  {
    assert (log + [e])[..|log|] == log;
  }

  lemma {:induction false} LawfulPrefix(log: Log, n: nat)
    requires Lawful(log) && n <= |log|
    ensures Lawful(log[..n])
    ensures n < |log| ==> Next(log[..n], log[n])
  {
    if n == |log| {
      assert log[..n] == log;
    } else if n < |log| - 1 {
      LawfulPrefix(log[..|log| - 1], n);
      assert log[..|log| - 1][..n] == log[..n];
    }
  }

  lemma {:induction false} ClockIsLatest(log: Log, k: nat)
    requires Lawful(log) && k < |log|
    ensures log[k].at <= Clock(log)
  {
    if k < |log| - 1 {
      ClockIsLatest(log[..|log| - 1], k);
    }
  }

  // ----- sessions -----

  datatype Session = Session(user: UserId, createdAt: int, expiresAt: int, lastSeenAt: int)

  /** The sessions table after these statements. */
  function SessionsOf(log: Log): map<Token, Session> {
    if log == [] then map[] else SessionStep(SessionsOf(log[..|log| - 1]), log[|log| - 1])
  }

  function SessionStep(sessions: map<Token, Session>, e: Event): map<Token, Session> {
    match e
    case Issued(token, user, _, at) => sessions[token := Session(user, at, at + SESSION_ABSOLUTE_TTL, at)]
    case Seen(token, at) =>
      if token in sessions then sessions[token := sessions[token].(lastSeenAt := at)] else sessions
    case LoggedOut(token, _) => sessions - {token}
    case Revoked(user, _) => sessions - SessionsOfUser(sessions, user)
    case _ => sessions
  }

  function SessionsOfUser(sessions: map<Token, Session>, user: UserId): set<Token> {
    set k | k in sessions && sessions[k].user == user
  }

  ghost predicate LastSighting(log: Log, token: Token, at: int) {
    && (exists k :: 0 <= k < |log| && Sighting(log[k], token) && log[k].at == at)
    && (forall k :: 0 <= k < |log| && Sighting(log[k], token) ==> log[k].at <= at)
  }

  /** The row of a token stands for the issue at `i` and the activity since. */
  ghost predicate RowOf(log: Log, i: int, token: Token, s: Session) {
    && InForce(log, i, token)
    && s.user == log[i].user && s.createdAt == log[i].at
    && s.expiresAt == log[i].at + SESSION_ABSOLUTE_TTL
    && LastSighting(log, token, s.lastSeenAt)
  }

  lemma RowStays(log: Log, e: Event, i: int, token: Token, s: Session)
    requires Lawful(log) && Next(log, e) && RowOf(log, i, token, s)
    requires !Ends(e, log[i])
    ensures RowOf(log + [e], i, token, if e == Seen(token, e.at) then s.(lastSeenAt := e.at) else s)
  {
    var log' := log + [e];
    assert forall j :: 0 <= j < |log| ==> log'[j] == log[j];
    assert log'[|log|] == e;
    if e == Seen(token, e.at) {
      forall k | 0 <= k < |log'| && Sighting(log'[k], token)
        ensures log'[k].at <= e.at
      {
        if k < |log| { ClockIsLatest(log, k); }
      }
    } else {
      var k :| 0 <= k < |log| && Sighting(log[k], token) && log[k].at == s.lastSeenAt;
      assert Sighting(log'[k], token);
    }
  }

  lemma RowOpens(log: Log, e: Event)
    requires Lawful(log) && Next(log, e) && e.Issued?
    requires forall k :: 0 <= k < |log| ==> !Sighting(log[k], e.token)
    ensures RowOf(log + [e], |log|, e.token, Session(e.user, e.at, e.at + SESSION_ABSOLUTE_TTL, e.at))
  {
    var log' := log + [e];
    assert log'[|log|] == e && Sighting(log'[|log|], e.token);
    assert forall j :: 0 <= j < |log| ==> log'[j] == log[j];
  }

  /** Nobody sees a token before it is issued. */
  lemma SeenWasIssued(log: Log, token: Token, k: nat)
    requires Lawful(log) && Fresh(log, token) && k < |log|
    ensures !Sighting(log[k], token)
  {
    assert !IssuedAt(log, k, token);
    LawfulPrefix(log, k);
    forall i
      ensures !InForce(log[..k], i, token)
    {
      assert !IssuedAt(log, i, token);
    }
  }

  /** A token has a row exactly while some issue of it is in force. */
  ghost predicate TableTells(log: Log, token: Token) {
    var m := SessionsOf(log);
    && (token in m ==> exists i :: RowOf(log, i, token, m[token]))
    && (token !in m ==> forall i :: !InForce(log, i, token))
  }

  lemma TokenStep(log: Log, e: Event, token: Token)
    requires Lawful(log) && Next(log, e) && TableTells(log, token)
    ensures TableTells(log + [e], token)
  {
    var log', m, m' := log + [e], SessionsOf(log), SessionsOf(log + [e]);
    assert log'[..|log|] == log && log'[|log|] == e;
    if e.Issued? && e.token == token {
      forall k | 0 <= k < |log| ensures !Sighting(log[k], token) { SeenWasIssued(log, token, k); }
      RowOpens(log, e);
    } else if token in m {
      var i :| RowOf(log, i, token, m[token]);
      if Ends(e, log[i]) {
        EndedHasNoIssue(log, e, i, token);
      } else {
        RowStays(log, e, i, token, m[token]);
      }
    } else {
      forall i
        ensures !InForce(log', i, token)
      {
        if IssuedAt(log', i, token) {
          assert IssuedAt(log, i, token) && !InForce(log, i, token);
          var j :| i < j < |log| && Ends(log[j], log[i]);
          assert Ends(log'[j], log'[i]);
        }
      }
    }
  }

  lemma OneIssue(log: Log, token: Token, i: int, j: int)
    requires Lawful(log) && IssuedAt(log, i, token) && IssuedAt(log, j, token)
    ensures i == j
  {
    if i < j {
      LawfulPrefix(log, j);
      assert IssuedAt(log[..j], i, token);
    } else if j < i {
      LawfulPrefix(log, i);
      assert IssuedAt(log[..i], j, token);
    }
  }

  lemma EndedHasNoIssue(log: Log, e: Event, i: int, token: Token)
    requires Lawful(log) && IssuedAt(log, i, token) && Ends(e, log[i])
    ensures forall j :: !InForce(log + [e], j, token)
  {
    var log' := log + [e];
    forall j
      ensures !InForce(log', j, token)
    {
      if IssuedAt(log', j, token) {
        assert IssuedAt(log, j, token);
        OneIssue(log, token, i, j);
        assert Ends(log'[|log|], log'[j]);
      }
    }
  }

  lemma {:induction false} TableTellsAlways(log: Log, token: Token)
    requires Lawful(log)
    ensures TableTells(log, token)
  {
    if log == [] {
    } else {
      var init := log[..|log| - 1];
      TableTellsAlways(init, token);
      TokenStep(init, log[|log| - 1], token);
      assert log == init + [log[|log| - 1]];
    }
  }

  /** The condition the UPDATE of ValidateSession tests. */
  predicate RowAccepts(sessions: map<Token, Session>, token: Token, t: int) {
    && token in sessions
    && sessions[token].expiresAt > t
    && sessions[token].lastSeenAt > t - SESSION_IDLE_TTL
  }

  /** The table accepts a token exactly when the history promises it. */
  lemma TableAcceptsExactly(log: Log, token: Token, t: int)
    requires Lawful(log)
    ensures RowAccepts(SessionsOf(log), token, t) <==> Acceptable(log, token, t)
  {
    TableTellsAlways(log, token);
    var m := SessionsOf(log);
    if token in m {
      var i :| RowOf(log, i, token, m[token]);
      var k :| 0 <= k < |log| && Sighting(log[k], token) && log[k].at == m[token].lastSeenAt;
      if Acceptable(log, token, t) {
        var j :| InForce(log, j, token) && t < log[j].at + SESSION_ABSOLUTE_TTL
          && SightedAfter(log, token, t - SESSION_IDLE_TTL);
        OneIssue(log, token, i, j);
      }
    }
  }

  /** The same with everything written out: the token was issued less than four hours before and not
      logged out nor its user's sessions revoked since, and it was issued or accepted less than thirty
      minutes before. */
  lemma AcceptedExactly(log: Log, token: Token, t: int)
    requires Lawful(log)
    ensures RowAccepts(SessionsOf(log), token, t) <==>
      && (exists i :: 0 <= i < |log| && log[i].Issued? && log[i].token == token
            && t < log[i].at + 4 * 60 * 60 * 1_000_000
            && forall j :: i < j < |log| ==>
                 !(log[j].LoggedOut? && log[j].token == token) && !(log[j].Revoked? && log[j].user == log[i].user))
      && (exists k :: 0 <= k < |log| && (log[k].Issued? || log[k].Seen?) && log[k].token == token
            && log[k].at > t - 30 * 60 * 1_000_000)
  {
    TableAcceptsExactly(log, token, t);
    if i :| 0 <= i < |log| && log[i].Issued? && log[i].token == token
            && t < log[i].at + 4 * 60 * 60 * 1_000_000
            && forall j :: i < j < |log| ==>
                 !(log[j].LoggedOut? && log[j].token == token) && !(log[j].Revoked? && log[j].user == log[i].user) {
      assert InForce(log, i, token);
    }
    if k :| 0 <= k < |log| && (log[k].Issued? || log[k].Seen?) && log[k].token == token
            && log[k].at > t - 30 * 60 * 1_000_000 {
      assert Sighting(log[k], token);
    }
    if i :| InForce(log, i, token) && t < log[i].at + SESSION_ABSOLUTE_TTL
            && SightedAfter(log, token, t - SESSION_IDLE_TTL) {
      assert forall j :: i < j < |log| ==> !Ends(log[j], log[i]);
      var k :| 0 <= k < |log| && Sighting(log[k], token) && log[k].at > t - SESSION_IDLE_TTL;
    }
  }

  /** Past its absolute lifetime, or idle for the timeout. */
  ghost predicate TimedOut(log: Log, token: Token, t: int) {
    exists i :: IssuedAt(log, i, token) &&
      (t >= log[i].at + SESSION_ABSOLUTE_TTL || !SightedAfter(log, token, t - SESSION_IDLE_TTL))
  }

  lemma TimedOutIsRefused(log: Log, token: Token, t: int, later: int)
    requires Lawful(log) && TimedOut(log, token, t) && t <= later
    ensures !Acceptable(log, token, later)
  {
    var i :| IssuedAt(log, i, token) &&
      (t >= log[i].at + SESSION_ABSOLUTE_TTL || !SightedAfter(log, token, t - SESSION_IDLE_TTL));
    forall j | InForce(log, j, token)
      ensures !(later < log[j].at + SESSION_ABSOLUTE_TTL && SightedAfter(log, token, later - SESSION_IDLE_TTL))
    {
      OneIssue(log, token, i, j);
    }
  }

  lemma TimedOutStep(log: Log, e: Event, token: Token, t: int)
    requires Lawful(log) && Next(log, e) && TimedOut(log, token, t) && t <= e.at
    ensures TimedOut(log + [e], token, t) && e != Seen(token, e.at)
  {
    TimedOutIsRefused(log, token, t, e.at);
    var log' := log + [e];
    var i :| IssuedAt(log, i, token) &&
      (t >= log[i].at + SESSION_ABSOLUTE_TTL || !SightedAfter(log, token, t - SESSION_IDLE_TTL));
    assert IssuedAt(log', i, token) && !Sighting(e, token);
  }

  /** A timed-out token is never accepted again. */
  lemma {:induction false} TimedOutForever(log: Log, n: nat, token: Token, t: int)
    requires Lawful(log) && n <= |log| && TimedOut(log[..n], token, t)
    requires forall j :: n <= j < |log| ==> log[j].at >= t
    ensures TimedOut(log, token, t)
    ensures forall j :: n <= j < |log| ==> !(log[j].Seen? && log[j].token == token)
  {
    if n == |log| {
      assert log[..n] == log;
    } else {
      var init, e := log[..|log| - 1], log[|log| - 1];
      assert init[..n] == log[..n];
      TimedOutForever(init, n, token, t);
      TimedOutStep(init, e, token, t);
      assert log == init + [e];
    }
  }

  // ----- passwords -----

  /** Every open session was opened against the password its user has now. */
  ghost predicate Current(log: Log) {
    forall i, token :: InForce(log, i, token) ==> OpenedAgainst(log, i)
  }

  predicate OpenedAgainst(log: Log, i: int)
    requires 0 <= i < |log| && log[i].Issued?
  {
    && log[i].user in PasswordsOf(log)
    && log[i].against == PasswordsOf(log)[log[i].user].hash
    && log[i].at >= PasswordsOf(log)[log[i].user].changedAt
  }

  /** Which statements keep every open session current: a changed password does not, as long as
      the user has a session; opening one against another hash does not. */
  lemma CurrentStep(log: Log, e: Event)
    requires Lawful(log) && Next(log, e) && Current(log)
    requires Sets(e) ==> forall i, token :: InForce(log, i, token) ==> log[i].user != e.user
    requires e.Issued? ==>
      && e.user in PasswordsOf(log) && e.against == PasswordsOf(log)[e.user].hash
      && PasswordsOf(log)[e.user].changedAt <= e.at
    ensures Current(log + [e])
  {
    var log' := log + [e];
    assert log'[..|log|] == log && log'[|log|] == e;
    forall i, token | InForce(log', i, token)
      ensures OpenedAgainst(log', i)
    {
      if i < |log| {
        assert forall j :: i < j < |log| ==> log'[j] == log[j];
        assert InForce(log, i, token);
      }
    }
  }
}
