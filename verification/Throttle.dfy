/** Login throttling of internal/auth/service.go: the pruned table of failures against the whole
    history of failed logins. */
module Throttle {
  import opened Prelude
  import opened AuthLog

  datatype LoginFailure = LoginFailure(key: FailureKey, at: int)

  /** The rows a DELETE leaves. */
  datatype Survivors = OtherThan(key: FailureKey) | Since(t: int) {
    predicate Has(r: LoginFailure) {
      if OtherThan? then r.key != key else r.at >= t
    }
  }

  function Keep(rows: seq<LoginFailure>, p: Survivors): seq<LoginFailure> {
    if rows == [] then []
    else Keep(rows[..|rows| - 1], p) + if p.Has(rows[|rows| - 1]) then [rows[|rows| - 1]] else []
  }

  function Count(rows: seq<LoginFailure>, key: FailureKey, since: int): nat {
    if rows == [] then 0
    else
      var r := rows[|rows| - 1];
      Count(rows[..|rows| - 1], key, since) + if r.key == key && r.at >= since then 1 else 0
  }

  /** The login_failures table after these statements. */
  function FailuresOf(log: Log): seq<LoginFailure> {
    if log == [] then [] else FailureStep(FailuresOf(log[..|log| - 1]), log[|log| - 1])
  }

  function FailureStep(rows: seq<LoginFailure>, e: Event): seq<LoginFailure> {
    match e
    case Recorded(name, addr, _, at) => rows + [LoginFailure(ByUser(name), at), LoginFailure(ByAddr(addr), at)]
    case Cleared(name, _, _, _) => Keep(rows, OtherThan(ByUser(name)))
    case Pruned(at) => Keep(rows, Since(at - THROTTLE_WINDOW))
    case _ => rows
  }

  // ----- the pruned table tells the same as the history -----

  function Counts(r: LoginFailure, key: FailureKey, since: int): nat {
    if r.key == key && r.at >= since then 1 else 0
  }

  lemma CountOneMore(rows: seq<LoginFailure>, r: LoginFailure, key: FailureKey, since: int)
    ensures Count(rows + [r], key, since) == Count(rows, key, since) + Counts(r, key, since)
  {
    assert (rows + [r])[..|rows|] == rows;
  }

  lemma CountTwoMore(rows: seq<LoginFailure>, a: LoginFailure, b: LoginFailure, key: FailureKey, since: int)
    ensures Count(rows + [a, b], key, since) == Count(rows, key, since) + Counts(a, key, since) + Counts(b, key, since)
  {
    CountOneMore(rows, a, key, since);
    CountOneMore(rows + [a], b, key, since);
    assert rows + [a, b] == rows + [a] + [b];
  }

  lemma SinceOneMore(times: seq<int>, at: int, since: int)
    ensures CountSince(times + [at], since) == CountSince(times, since) + if at >= since then 1 else 0
  {
    assert (times + [at])[..|times|] == times;
  }

  /** Dropping rows that do not count changes no count. */
  lemma {:induction false} KeepCounts(rows: seq<LoginFailure>, p: Survivors, key: FailureKey, since: int)
    requires forall r :: r in rows && r.key == key && r.at >= since ==> p.Has(r)
    ensures Count(Keep(rows, p), key, since) == Count(rows, key, since)
  {
    if rows == [] {
    } else {
      var init, r := rows[..|rows| - 1], rows[|rows| - 1];
      assert rows == init + [r];
      KeepCounts(init, p, key, since);
      if p.Has(r) { CountOneMore(Keep(init, p), r, key, since); } else { assert Keep(rows, p) == Keep(init, p); }
    }
  }

  lemma {:induction false} KeepNone(rows: seq<LoginFailure>, p: Survivors, key: FailureKey, since: int)
    requires forall r :: r in rows && r.key == key ==> !p.Has(r)
    ensures Count(Keep(rows, p), key, since) == 0
  {
    if rows == [] {
    } else {
      var init, r := rows[..|rows| - 1], rows[|rows| - 1];
      assert rows == init + [r];
      KeepNone(init, p, key, since);
      if p.Has(r) { CountOneMore(Keep(init, p), r, key, since); } else { assert Keep(rows, p) == Keep(init, p); }
    }
  }

  lemma RecordedAgrees(rows: seq<LoginFailure>, times: seq<int>, e: Event, key: FailureKey, since: int)
    requires e.Recorded? && Count(rows, key, since) == CountSince(times, since)
    ensures Count(FailureStep(rows, e), key, since) == CountSince(TimesStep(times, e, key), since)
  {
    var a, b := LoginFailure(ByUser(e.name), e.at), LoginFailure(ByAddr(e.addr), e.at);
    CountTwoMore(rows, a, b, key, since);
    SinceOneMore(times, e.at, since);
    assert FailureStep(rows, e) == rows + [a, b];
  }

  lemma ClearedAgrees(rows: seq<LoginFailure>, times: seq<int>, e: Event, key: FailureKey, since: int)
    requires e.Cleared? && Count(rows, key, since) == CountSince(times, since)
    ensures Count(FailureStep(rows, e), key, since) == CountSince(TimesStep(times, e, key), since)
  {
    if key == ByUser(e.name) {
      KeepNone(rows, OtherThan(ByUser(e.name)), key, since);
    } else {
      KeepCounts(rows, OtherThan(ByUser(e.name)), key, since);
    }
  }

  lemma StepAgrees(rows: seq<LoginFailure>, times: seq<int>, e: Event, key: FailureKey, since: int)
    requires since >= e.at - THROTTLE_WINDOW && Count(rows, key, since) == CountSince(times, since)
    ensures Count(FailureStep(rows, e), key, since) == CountSince(TimesStep(times, e, key), since)
  {
    if e.Recorded? {
      RecordedAgrees(rows, times, e, key, since);
    } else if e.Cleared? {
      ClearedAgrees(rows, times, e, key, since);
    } else if e.Pruned? {
      KeepCounts(rows, Since(e.at - THROTTLE_WINDOW), key, since);
    }
  }

  /** Within the window, the pruned table counts what the whole history counts. */
  lemma {:induction false} PrunedAgrees(log: Log, key: FailureKey, since: int)
    requires Lawful(log) && since >= Clock(log) - THROTTLE_WINDOW
    ensures Count(FailuresOf(log), key, since) == CountSince(Times(log, key), since)
  {
    if log == [] {
    } else {
      var init := log[..|log| - 1];
      PrunedAgrees(init, key, since);
      StepAgrees(FailuresOf(init), Times(init, key), log[|log| - 1], key, since);
    }
  }

  /** What isThrottled computes. */
  predicate TableThrottles(rows: seq<LoginFailure>, name: string, addr: string, t: int) {
    || Count(rows, ByUser(name), t - THROTTLE_WINDOW) >= THROTTLE_USER_MAX
    || Count(rows, ByAddr(addr), t - THROTTLE_WINDOW) >= THROTTLE_ADDR_MAX
  }

  /** The pruned table gives the verdict of the full history. */
  lemma VerdictOfHistory(log: Log, name: string, addr: string, t: int)
    requires Lawful(log) && Clock(log) <= t
    ensures TableThrottles(FailuresOf(log), name, addr, t) <==> Throttled(log, name, addr, t)
  {
    PrunedAgrees(log, ByUser(name), t - THROTTLE_WINDOW);
    PrunedAgrees(log, ByAddr(addr), t - THROTTLE_WINDOW);
  }

  // ----- what throttles, read off the history -----

  /** The failed logins under a name since its last success, from `since` on. */
  function FailedAs(log: Log, name: string, since: int): set<int> {
    set i | 0 <= i < |log| && log[i].Recorded? && log[i].name == name && log[i].at >= since
            && forall j :: i < j < |log| ==> !(log[j].Cleared? && log[j].name == name)
  }

  /** The failed logins from an address, from `since` on. */
  function FailedFrom(log: Log, addr: string, since: int): set<int> {
    set i | 0 <= i < |log| && log[i].Recorded? && log[i].addr == addr && log[i].at >= since
  }

  lemma FailedAsStep(log: Log, e: Event, name: string, since: int)
    ensures FailedAs(log + [e], name, since) ==
      if e.Cleared? && e.name == name then {}
      else if e.Recorded? && e.name == name && e.at >= since then FailedAs(log, name, since) + {|log|}
      else FailedAs(log, name, since)
  {
    var log', old' := log + [e], FailedAs(log, name, since);
    assert log'[|log|] == e && forall i :: 0 <= i < |log| ==> log'[i] == log[i];
    forall i
      ensures i in FailedAs(log', name, since) <==>
        if i == |log| then e.Recorded? && e.name == name && e.at >= since
        else i in old' && !(e.Cleared? && e.name == name)
    {
      if 0 <= i < |log| && log[i].Recorded? && log[i].name == name && log[i].at >= since
         && !(e.Cleared? && e.name == name) {
        if forall j :: i < j < |log| ==> !(log[j].Cleared? && log[j].name == name) {
          assert forall j :: i < j < |log'| ==> !(log'[j].Cleared? && log'[j].name == name);
        } else {
          var j :| i < j < |log| && log[j].Cleared? && log[j].name == name;
          assert log'[j] == log[j];
        }
      }
    }
  }

  lemma FailedFromStep(log: Log, e: Event, addr: string, since: int)
    ensures FailedFrom(log + [e], addr, since) ==
      if e.Recorded? && e.addr == addr && e.at >= since then FailedFrom(log, addr, since) + {|log|}
      else FailedFrom(log, addr, since)
  {
    var log' := log + [e];
    assert log'[|log|] == e && forall i :: 0 <= i < |log| ==> log'[i] == log[i];
  }

  lemma TimesOneMore(log: Log, e: Event, key: FailureKey)
    ensures Times(log + [e], key) == TimesStep(Times(log, key), e, key)
  {
    assert (log + [e])[..|log|] == log;
  }

  lemma CountStep(times: seq<int>, e: Event, key: FailureKey, since: int)
    ensures CountSince(TimesStep(times, e, key), since) ==
      if e.Recorded? && (key == ByUser(e.name) || key == ByAddr(e.addr)) && e.at >= since
      then CountSince(times, since) + 1
      else if e.Cleared? && key == ByUser(e.name) then 0
      else CountSince(times, since)
  {
    if e.Recorded? { SinceOneMore(times, e.at, since); }
  }

  lemma {:induction false} UserCount(log: Log, name: string, since: int)
    ensures CountSince(Times(log, ByUser(name)), since) == |FailedAs(log, name, since)|
  {
    if log == [] {
      assert FailedAs(log, name, since) == {};
    } else {
      var init, e := log[..|log| - 1], log[|log| - 1];
      UserCount(init, name, since);
      TimesOneMore(init, e, ByUser(name));
      CountStep(Times(init, ByUser(name)), e, ByUser(name), since);
      FailedAsStep(init, e, name, since);
      assert |init| !in FailedAs(init, name, since);
      assert log == init + [e];
    }
  }

  lemma {:induction false} AddrCount(log: Log, addr: string, since: int)
    ensures CountSince(Times(log, ByAddr(addr)), since) == |FailedFrom(log, addr, since)|
  {
    if log == [] {
      assert FailedFrom(log, addr, since) == {};
    } else {
      var init, e := log[..|log| - 1], log[|log| - 1];
      AddrCount(init, addr, since);
      TimesOneMore(init, e, ByAddr(addr));
      CountStep(Times(init, ByAddr(addr)), e, ByAddr(addr), since);
      FailedFromStep(init, e, addr, since);
      assert |init| !in FailedFrom(init, addr, since);
      assert log == init + [e];
    }
  }

  /** A login is throttled exactly when the history shows ten failures under the name since its last
      success, or thirty from the address, in the fifteen minutes before. */
  lemma ThrottledExactly(log: Log, name: string, addr: string, t: int)
    ensures var since := t - 15 * 60 * 1_000_000;
      Throttled(log, name, addr, t) <==> |FailedAs(log, name, since)| >= 10 || |FailedFrom(log, addr, since)| >= 30
  {
    UserCount(log, name, t - 15 * 60 * 1_000_000);
    AddrCount(log, addr, t - 15 * 60 * 1_000_000);
  }

  // ----- the limits hold -----

  function CountWithin(times: seq<int>, from: int, to: int): nat {
    if times == [] then 0
    else CountWithin(times[..|times| - 1], from, to) + if from <= times[|times| - 1] <= to then 1 else 0
  }

  lemma {:induction false} WithinAtMostSince(times: seq<int>, from: int, to: int, since: int)
    requires since <= from
    ensures CountWithin(times, from, to) <= CountSince(times, since)
  {
    if times == [] {
    } else {
      WithinAtMostSince(times[..|times| - 1], from, to, since);
    }
  }

  /** A login let through adds at most one failure to a window that was not full. */
  lemma OneMoreWithin(times: seq<int>, from: int, checkedAt: int, at: int, max: nat)
    requires CountWithin(times, from, from + THROTTLE_WINDOW) <= max
    requires CountSince(times, checkedAt - THROTTLE_WINDOW) < max && checkedAt <= at
    ensures CountWithin(times + [at], from, from + THROTTLE_WINDOW) <= max
  {
    assert (times + [at])[..|times|] == times;
    if from <= at <= from + THROTTLE_WINDOW {
      WithinAtMostSince(times, from, from + THROTTLE_WINDOW, checkedAt - THROTTLE_WINDOW);
    }
  }

  /** In sequential runs, any closed window holds at most the limit of recorded failures: 10 of a
      user since the last success, 30 of an address. */
  lemma {:induction false} WindowHoldsLimit(log: Log, key: FailureKey, from: int)
    requires Guarded(log)
    ensures CountWithin(Times(log, key), from, from + THROTTLE_WINDOW) <= key.Max()
  {
    if log == [] {
    } else {
      var init, e := log[..|log| - 1], log[|log| - 1];
      WindowHoldsLimit(init, key, from);
      if e.Recorded? && (key == ByUser(e.name) || key == ByAddr(e.addr)) {
        assert Times(log, key) == Times(init, key) + [e.at] && !Full(init, key, e.checkedAt);
        OneMoreWithin(Times(init, key), from, e.checkedAt, e.at, key.Max());
      }
    }
  }

  lemma {:induction false} TimesArePast(log: Log, key: FailureKey)
    requires Lawful(log)
    ensures forall k :: 0 <= k < |Times(log, key)| ==> Times(log, key)[k] <= Clock(log)
  {
    if log == [] {
    } else {
      TimesArePast(log[..|log| - 1], key);
    }
  }

  lemma {:induction false} SinceIsWithin(times: seq<int>, from: int, to: int)
    requires forall k :: 0 <= k < |times| ==> times[k] <= to
    ensures CountSince(times, from) == CountWithin(times, from, to)
  {
    if times == [] {
    } else {
      SinceIsWithin(times[..|times| - 1], from, to);
    }
  }

  lemma {:induction false} LaterCountsFewer(times: seq<int>, since: int, later: int)
    requires since <= later
    ensures CountSince(times, later) <= CountSince(times, since)
    ensures (exists x :: x in times && since <= x < later) ==> CountSince(times, later) < CountSince(times, since)
  {
    if times == [] {
    } else {
      assert times == times[..|times| - 1] + [times[|times| - 1]];
      LaterCountsFewer(times[..|times| - 1], since, later);
    }
  }

  lemma {:induction false} Oldest(times: seq<int>, since: int) returns (o: int)
    requires CountSince(times, since) > 0
    ensures o in times && since <= o && CountSince(times, o) == CountSince(times, since)
  {
    var init, last := times[..|times| - 1], times[|times| - 1];
    if CountSince(init, since) == 0 {
      o := last;
      LaterCountsFewer(init, since, o);
    } else {
      var first := Oldest(init, since);
      o := first;
      if since <= last < first {
        o := last;
        LaterCountsFewer(init, since, last);
        LaterCountsFewer(init, last, first);
      }
    }
  }

  lemma LockoutInstant(log: Log, key: FailureKey, t: int) returns (oldest: int)
    requires Lawful(log) && Guarded(log) && Clock(log) <= t && Full(log, key, t)
    ensures oldest in Times(log, key) && t - THROTTLE_WINDOW <= oldest <= t
    ensures forall later :: Full(log, key, later) <==> later <= oldest + THROTTLE_WINDOW
  {
    var times := Times(log, key);
    oldest := Oldest(times, t - THROTTLE_WINDOW);
    TimesArePast(log, key);
    WindowHoldsLimit(log, key, t - THROTTLE_WINDOW);
    SinceIsWithin(times, t - THROTTLE_WINDOW, t);
    forall later
      ensures Full(log, key, later) <==> later <= oldest + THROTTLE_WINDOW
    {
      if later <= oldest + THROTTLE_WINDOW {
        LaterCountsFewer(times, later - THROTTLE_WINDOW, oldest);
      } else {
        LaterCountsFewer(times, oldest, later - THROTTLE_WINDOW);
      }
    }
  }

  /** While a key is full, nothing is recorded or cleared under it. */
  lemma FullStaysAsItIs(log: Log, e: Event, key: FailureKey, until: int)
    requires LetThrough(log, e) && e.at <= until
    requires forall later :: later <= until ==> Full(log, key, later)
    ensures Times(log + [e], key) == Times(log, key)
  {
    assert (log + [e])[..|log|] == log;
    if e.Recorded? || e.Cleared? {
      assert Full(log, key, e.checkedAt);
    }
  }

  lemma {:induction false} NothingUntil(log: Log, n: nat, key: FailureKey, until: int)
    requires Lawful(log) && Guarded(log) && n <= |log| && Clock(log) <= until
    requires forall later :: later <= until ==> Full(log[..n], key, later)
    ensures Times(log, key) == Times(log[..n], key)
    decreases |log|
  {
    if n == |log| {
      assert log[..n] == log;
    } else {
      var init, e := log[..|log| - 1], log[|log| - 1];
      assert init[..n] == log[..n] && log == init + [e];
      NothingUntil(init, n, key, until);
      forall later | later <= until
        ensures Full(init, key, later)
      {
        assert Full(log[..n], key, later);
      }
      FullStaysAsItIs(init, e, key, until);
    }
  }

  /** A lockout, in every run that goes on from it: as long as its oldest counted failure is in the
      window nothing is recorded or cleared under the key and every check refuses it, whatever
      other logins happen; and the first check after that lets the key through. */
  lemma LockoutEnds(log: Log, n: nat, key: FailureKey, t: int) returns (oldest: int)
    requires Lawful(log) && Guarded(log) && n <= |log|
    requires Clock(log[..n]) <= t && Full(log[..n], key, t)
    ensures oldest in Times(log[..n], key) && t - THROTTLE_WINDOW <= oldest <= t
    ensures Clock(log) <= oldest + THROTTLE_WINDOW ==>
      && Times(log, key) == Times(log[..n], key)
      && forall later :: Full(log, key, later) <==> later <= oldest + THROTTLE_WINDOW
  {
    LawfulPrefix(log, n);
    GuardedPrefix(log, n);
    oldest := LockoutInstant(log[..n], key, t);
    if Clock(log) <= oldest + THROTTLE_WINDOW {
      NothingUntil(log, n, key, oldest + THROTTLE_WINDOW);
      forall later
        ensures Full(log, key, later) <==> Full(log[..n], key, later)
      {
      }
    }
  }

  lemma {:induction false} GuardedPrefix(log: Log, n: nat)
    requires Guarded(log) && n <= |log|
    ensures Guarded(log[..n])
    decreases |log|
  {
    if n == |log| {
      assert log[..n] == log;
    } else {
      GuardedPrefix(log[..|log| - 1], n);
      assert log[..|log| - 1][..n] == log[..n];
    }
  }
}
