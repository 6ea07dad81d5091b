/** When logins and password changes overlap: exactly which histories leave a session that was
    opened against a password its user no longer has. */
module StalePasswords {
  import opened Prelude
  import opened Authz
  import opened AuthLog

  predicate SetsFor(e: Event, user: UserId) {
    Sets(e) && e.user == user
  }

  /** Statement `m` set the password the user has now. */
  ghost predicate LastSet(log: Log, user: UserId, m: int) {
    0 <= m < |log| && SetsFor(log[m], user) && forall k :: m < k < |log| ==> !SetsFor(log[k], user)
  }

  lemma {:induction false} PasswordWasSet(log: Log, user: UserId) returns (m: int)
    requires user in PasswordsOf(log)
    ensures LastSet(log, user, m) && PasswordsOf(log)[user] == Password(log[m].hash, log[m].at)
  {
    var init, e := log[..|log| - 1], log[|log| - 1];
    if SetsFor(e, user) {
      m := |log| - 1;
    } else {
      m := PasswordWasSet(init, user);
      assert forall k :: 0 <= k < |init| ==> init[k] == log[k];
    }
  }

  /** Statement `b` is the last before `i` by which the request learned its user's hash. */
  ghost predicate Basis(log: Log, b: int, i: int, request: Token) {
    0 <= b < i <= |log| && Own(log[b], request) && forall k :: b < k < i ==> !Own(log[k], request)
  }

  lemma {:induction false} KnownHasBasis(log: Log, request: Token) returns (b: int)
    requires Known(log, request).Some?
    ensures Basis(log, b, |log|, request) && Known(log, request) == Some((log[b].user, log[b].hash))
  {
    var init, e := log[..|log| - 1], log[|log| - 1];
    if Own(e, request) {
      b := |log| - 1;
    } else {
      b := KnownHasBasis(init, request);
      assert forall k :: 0 <= k < |init| ==> init[k] == log[k];
    }
  }

  /** A session issued at `i` rests on a hash of its user, learned at some `b` before. */
  lemma IssueHasBasis(log: Log, i: int, token: Token) returns (b: int)
    requires Lawful(log) && IssuedAt(log, i, token)
    ensures Basis(log, b, i, token) && log[b].user == log[i].user && log[b].hash == log[i].against
  {
    LawfulPrefix(log, i);
    b := KnownHasBasis(log[..i], token);
    assert forall k :: 0 <= k < i ==> log[..i][k] == log[k];
  }

  /** The hash learned at `b` was set at some `m` up to then, and not again in between. */
  lemma LearnedWasSet(log: Log, b: int, request: Token) returns (m: int)
    requires Lawful(log) && 0 <= b < |log| && Own(log[b], request)
    ensures 0 <= m <= b && SetsFor(log[m], log[b].user) && log[m].hash == log[b].hash
    ensures forall k :: m < k <= b ==> !SetsFor(log[k], log[b].user)
  {
    LawfulPrefix(log, b);
    if log[b].Changed? {
      m := b;
    } else {
      m := PasswordWasSet(log[..b], log[b].user);
      assert forall k :: 0 <= k < b ==> log[..b][k] == log[k];
    }
  }

  lemma HashesDiffer(log: Log, i: nat, j: nat)
    requires Lawful(log) && i < j < |log| && Sets(log[i]) && Sets(log[j])
    ensures log[i].hash != log[j].hash
  {
    LawfulPrefix(log, j);
    assert log[..j][i] == log[i];
  }

  /** The password was set again after the session's request learned it: before the session was
      opened, or after, without revoking it. */
  ghost predicate Straddled(log: Log, i: int, token: Token)
    requires IssuedAt(log, i, token)
  {
    exists b, j :: Basis(log, b, i, token) && b < j < i && SetsFor(log[j], log[i].user)
  }

  ghost predicate Superseded(log: Log, i: int, token: Token)
    requires IssuedAt(log, i, token)
  {
    exists j :: i < j < |log| && SetsFor(log[j], log[i].user)
  }

  lemma TimesAscend(log: Log, i: nat, j: nat)
    requires Lawful(log) && i <= j < |log|
    ensures log[i].at <= log[j].at
  {
    LawfulPrefix(log, j + 1);
    ClockIsLatest(log[..j + 1], i);
  }

  lemma SessionIsCurrentExactly(log: Log, i: int, token: Token)
    requires Lawful(log) && IssuedAt(log, i, token)
    ensures OpenedAgainst(log, i) <==> !Straddled(log, i, token) && !Superseded(log, i, token)
  {
    var user := log[i].user;
    var b := IssueHasBasis(log, i, token);
    var m0 := LearnedWasSet(log, b, token);
    UserStays(log, m0, user);
    var m := PasswordWasSet(log, user);
    if b < m {
      HashesDiffer(log, m0, m);
      assert Straddled(log, i, token) || Superseded(log, i, token);
    } else {
      assert m == m0;
      TimesAscend(log, m, i);
      forall b', j | Basis(log, b', i, token) && b' < j < i
        ensures !SetsFor(log[j], user)
      {
        assert b' == b;
      }
    }
  }

  /** Whoever has had a password has one. */
  lemma {:induction false} UserStays(log: Log, m: nat, user: UserId)
    requires m < |log| && SetsFor(log[m], user)
    ensures user in PasswordsOf(log)
  {
    if m < |log| - 1 {
      UserStays(log[..|log| - 1], m, user);
    }
  }

  /** Over every interleaving of logins, password changes and the rest: all open sessions are of
      current passwords exactly when no change of that user's hash falls between a request's
      reading it and its opening the session, nor stands unrevoked after. */
  lemma CurrentExactly(log: Log)
    requires Lawful(log)
    ensures Current(log)
       <==> forall i, token :: InForce(log, i, token) ==> !Straddled(log, i, token) && !Superseded(log, i, token)
  {
    forall i, token | InForce(log, i, token)
      ensures OpenedAgainst(log, i) <==> !Straddled(log, i, token) && !Superseded(log, i, token)
    {
      SessionIsCurrentExactly(log, i, token);
    }
  }

  // ----- a login that straddles a change -----

  /** Login `r` reads the hash; password change `c` reads it, stores another, revokes every session
      and opens its own; then the login clears its failures and opens its session. */
  function StraddlingLogin(r: Token, c: Token, user: UserId, hash: string, newHash: string, name: string, addr: string,
                           t: int): Log {
    [ReadHash(r, user, hash, t), ReadHash(c, user, hash, t), Changed(c, user, newHash, t), Revoked(user, t),
     Issued(c, user, newHash, t), Cleared(name, addr, t, t), Issued(r, user, hash, t)]
  }

  lemma OneByOne(log: Log, a: Event, b: Event, c: Event, d: Event, e: Event, f: Event, g: Event)
    ensures log + [a] + [b] + [c] + [d] + [e] + [f] + [g] == log + [a, b, c, d, e, f, g]
  {
  }

  lemma OneMore(log: Log, e: Event)
    requires Lawful(log) && Next(log, e)
    ensures Lawful(log + [e]) && Clock(log + [e]) == e.at
    ensures PasswordsOf(log + [e])
         == if Sets(e) then PasswordsOf(log)[e.user := Password(e.hash, e.at)] else PasswordsOf(log)
    ensures forall q :: Known(log + [e], q) == if Own(e, q) then Some((e.user, e.hash)) else Known(log, q)
    ensures forall q :: Fresh(log, q) && !(e.Issued? && e.token == q) ==> Fresh(log + [e], q)
    ensures !Sets(e) ==> forall h :: NewHash(log, h) ==> NewHash(log + [e], h)
  {
    var log' := log + [e];
    assert log'[..|log|] == log && log'[|log|] == e;
    LawfulNext(log, e);
    forall q | Fresh(log, q) && !(e.Issued? && e.token == q)
      ensures Fresh(log', q)
    {
      forall i ensures !IssuedAt(log', i, q) { assert !IssuedAt(log, i, q); }
    }
  }

  lemma BothRead(log: Log, r: Token, c: Token, user: UserId, newHash: string, t: int)
    requires Lawful(log) && user in PasswordsOf(log) && NewHash(log, newHash) && Clock(log) <= t
    requires r != c && Fresh(log, r) && Fresh(log, c)
    ensures var hash := PasswordsOf(log)[user].hash;
      var log' := log + [ReadHash(r, user, hash, t)] + [ReadHash(c, user, hash, t)];
      && Lawful(log') && Clock(log') == t && PasswordsOf(log') == PasswordsOf(log) && NewHash(log', newHash)
      && Known(log', r) == Known(log', c) == Some((user, hash)) && Fresh(log', r) && Fresh(log', c)
  {
    var hash := PasswordsOf(log)[user].hash;
    OneMore(log, ReadHash(r, user, hash, t));
    OneMore(log + [ReadHash(r, user, hash, t)], ReadHash(c, user, hash, t));
  }

  lemma ChangeRuns(log: Log, r: Token, c: Token, user: UserId, newHash: string, t: int)
    requires Lawful(log) && user in PasswordsOf(log) && NewHash(log, newHash) && Clock(log) == t
    requires r != c && Fresh(log, r) && Fresh(log, c) && Known(log, c).Some? && Known(log, c).value.0 == user
    ensures var log' := log + [Changed(c, user, newHash, t)] + [Revoked(user, t)] + [Issued(c, user, newHash, t)];
      && Lawful(log') && Clock(log') == t && user in PasswordsOf(log') && PasswordsOf(log')[user].hash == newHash
      && Known(log', r) == Known(log, r) && Fresh(log', r)
  {
    var l1 := log + [Changed(c, user, newHash, t)];
    OneMore(log, Changed(c, user, newHash, t));
    var l2 := l1 + [Revoked(user, t)];
    OneMore(l1, Revoked(user, t));
    OneMore(l2, Issued(c, user, newHash, t));
  }

  lemma LoginEnds(log: Log, r: Token, user: UserId, hash: string, name: string, addr: string, t: int)
    requires Lawful(log) && Clock(log) == t && Fresh(log, r) && Known(log, r) == Some((user, hash))
    requires user in PasswordsOf(log) && PasswordsOf(log)[user].hash != hash
    ensures var log' := log + [Cleared(name, addr, t, t)] + [Issued(r, user, hash, t)];
      Lawful(log') && !Current(log')
  {
    var l1 := log + [Cleared(name, addr, t, t)];
    OneMore(log, Cleared(name, addr, t, t));
    var l2 := l1 + [Issued(r, user, hash, t)];
    OneMore(l1, Issued(r, user, hash, t));
    assert l2[|l1|] == Issued(r, user, hash, t);
    assert InForce(l2, |l1|, r) && !OpenedAgainst(l2, |l1|);
  }

  /** From any history on, such a login is lawful and leaves a session of the old password. */
  lemma LateLoginIsStale(log: Log, r: Token, c: Token, user: UserId, newHash: string, name: string, addr: string,
                         t: int)
    requires Lawful(log) && user in PasswordsOf(log) && NewHash(log, newHash) && Clock(log) <= t
    requires r != c && Fresh(log, r) && Fresh(log, c)
    ensures var log' := log + StraddlingLogin(r, c, user, PasswordsOf(log)[user].hash, newHash, name, addr, t);
      Lawful(log') && !Current(log')
  {
    var hash := PasswordsOf(log)[user].hash;
    OldHashIsOld(log, user, newHash);
    var l2 := log + [ReadHash(r, user, hash, t)] + [ReadHash(c, user, hash, t)];
    BothRead(log, r, c, user, newHash, t);
    var l5 := l2 + [Changed(c, user, newHash, t)] + [Revoked(user, t)] + [Issued(c, user, newHash, t)];
    ChangeRuns(l2, r, c, user, newHash, t);
    LoginEnds(l5, r, user, hash, name, addr, t);
    OneByOne(log, ReadHash(r, user, hash, t), ReadHash(c, user, hash, t), Changed(c, user, newHash, t),
             Revoked(user, t), Issued(c, user, newHash, t), Cleared(name, addr, t, t), Issued(r, user, hash, t));
  }
}
