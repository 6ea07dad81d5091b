/** Migrate and applyOne of internal/database/database.go: one run with a fault anywhere, runs
    repeated to success, and several instances competing for the advisory lock. */
module Migrator {
  import opened Prelude
  import opened Migrations

  /** The rows of schema_version in the order they were written, and the scripts that made the
      schema. */
  datatype Db = Db(versions: seq<int>, scripts: seq<string>)

  /** The database after the first `k` migrations. */
  function After(ms: seq<Migration>, k: nat): Db
    requires k <= |ms|
  {
    Db(seq(k, i requires 0 <= i < k => ms[i].version), seq(k, i requires 0 <= i < k => ms[i].sql))
  }

  /** COALESCE(MAX(version), 0) */
  function MaxVersion(versions: seq<int>): int {
    if versions == [] then 0
    else
      var before, last := MaxVersion(versions[..|versions| - 1]), versions[|versions| - 1];
      if |versions| == 1 || last > before then last else before
  }

  /** How many migrations have a version up to `current`. */
  function Skipped(ms: seq<Migration>, current: int): (k: nat)
    ensures k <= |ms|
  {
    if ms == [] || ms[|ms| - 1].version > current then (if ms == [] then 0 else Skipped(ms[..|ms| - 1], current))
    else |ms|
  }

  lemma {:induction false} SkippedSplits(ms: seq<Migration>, current: int)
    requires Ascending(ms)
    ensures forall i :: 0 <= i < |ms| ==> (i < Skipped(ms, current) <==> ms[i].version <= current)
  {
    if ms != [] && ms[|ms| - 1].version > current {
      SkippedSplits(ms[..|ms| - 1], current);
    }
  }

  lemma {:induction false} SkippedIs(ms: seq<Migration>, current: int, k: nat)
    requires k <= |ms|
    requires forall i :: 0 <= i < |ms| ==> (i < k <==> ms[i].version <= current)
    ensures Skipped(ms, current) == k
  {
    if k < |ms| {
      SkippedIs(ms[..|ms| - 1], current, k);
    }
  }

  lemma {:induction false} MaxOfAscending(versions: seq<int>)
    requires versions != [] && forall i, j :: 0 <= i < j < |versions| ==> versions[i] < versions[j]
    ensures MaxVersion(versions) == versions[|versions| - 1]
  {
    if |versions| > 1 {
      MaxOfAscending(versions[..|versions| - 1]);
    }
  }

  /** From a prefix, exactly the migrations of the prefix are skipped. */
  lemma PrefixIsSkipped(ms: seq<Migration>, k: nat)
    requires Positive(ms) && k <= |ms|
    ensures Skipped(ms, MaxVersion(After(ms, k).versions)) == k
  {
    var versions := After(ms, k).versions;
    if k > 0 { MaxOfAscending(versions); }
    SkippedIs(ms, MaxVersion(versions), k);
  }

  lemma {:induction false} MaxIsLargest(versions: seq<int>)
    ensures forall v :: v in versions ==> v <= MaxVersion(versions)
    ensures versions != [] ==> MaxVersion(versions) in versions
  {
    if versions == [] {
    } else {
      var init, last := versions[..|versions| - 1], versions[|versions| - 1];
      MaxIsLargest(init);
      assert versions == init + [last];
      if |versions| == 1 { assert init == []; }
    }
  }

  /** `db` followed by the migrations from `from` up to `to`. */
  function Plus(db: Db, ms: seq<Migration>, from: nat, to: nat): Db
    requires from <= to <= |ms|
  {
    Db(db.versions + seq(to - from, i requires 0 <= i < to - from => ms[from + i].version),
       db.scripts + seq(to - from, i requires 0 <= i < to - from => ms[from + i].sql))
  }

  lemma PrefixPlus(ms: seq<Migration>, from: nat, to: nat)
    requires from <= to <= |ms|
    ensures Plus(After(ms, from), ms, from, to) == After(ms, to)
  {
    var p, a := Plus(After(ms, from), ms, from, to), After(ms, to);
    assert p.versions == a.versions && p.scripts == a.scripts;
  }

  lemma PlusOneMore(db: Db, ms: seq<Migration>, from: nat, to: nat)
    requires from <= to < |ms|
    ensures Plus(db, ms, from, to + 1)
         == Db(Plus(db, ms, from, to).versions + [ms[to].version], Plus(db, ms, from, to).scripts + [ms[to].sql])
  {
    var a, b := Plus(db, ms, from, to + 1), Plus(db, ms, from, to);
    assert a.versions == b.versions + [ms[to].version] && a.scripts == b.scripts + [ms[to].sql];
  }

  // ----- one instance -----

  datatype Stage = Begin | Script | Record | Commit

  /** The migration at `index` fails at `stage`, by an error or a crash. */
  datatype Fault = NoFault | At(index: nat, stage: Stage)

  class Database {
    var db: Db

    constructor (db: Db)
      ensures this.db == db
    {
      this.db := db;
    }

    /** Script and version in one transaction: both or neither. */
    method ApplyOne(m: Migration, failsAt: Option<Stage>) returns (ok: bool)
      modifies this
      ensures ok <==> failsAt.None? && m.version !in old(db).versions
      ensures db == if ok then Db(old(db).versions + [m.version], old(db).scripts + [m.sql]) else old(db)
    {
      if failsAt.Some? && (failsAt.value.Begin? || failsAt.value.Script?) { return false; }
      var tx := db.(scripts := db.scripts + [m.sql]);
      if (failsAt.Some? && failsAt.value.Record?) || m.version in tx.versions { return false; } // primary key
      tx := tx.(versions := tx.versions + [m.version]);
      if failsAt.Some? && failsAt.value.Commit? { return false; }
      db := tx;
      ok := true;
    }

    /** Applies the pending migrations in ascending order, up to the first fault. */
    method Migrate(ms: seq<Migration>, fault: Fault) returns (applied: nat, ok: bool)
      requires Positive(ms)
      modifies this
      ensures var k := Skipped(ms, MaxVersion(old(db).versions));
        && ok == !(fault.At? && k <= fault.index < |ms|)
        && var n := if ok then |ms| else fault.index;
           applied == n - k && db == Plus(old(db), ms, k, n)
    {
      var current := MaxVersion(db.versions);
      ghost var k := Skipped(ms, current);
      SkippedSplits(ms, current);
      MaxIsLargest(db.versions);
      applied := 0;
      assert Plus(db, ms, k, k) == db;
      for i := 0 to |ms|
        invariant applied == if i <= k then 0 else i - k
        invariant db == Plus(old(db), ms, k, if i <= k then k else i)
        invariant forall j :: i <= j < |ms| && k <= j ==> ms[j].version !in db.versions
        invariant !(fault.At? && k <= fault.index < i)
      {
        if ms[i].version <= current { continue; }
        var done := ApplyOne(ms[i], if fault.At? && fault.index == i then Some(fault.stage) else None);
        if !done {
          return applied, false;
        }
        applied := applied + 1;
        PlusOneMore(old(db), ms, k, i);
        forall j | i + 1 <= j < |ms| ensures ms[j].version !in db.versions {
          assert ms[i].version < ms[j].version;
        }
      }
      ok := true;
    }
  }

  /** Failing or crashing anywhere, any number of times, and then running to success makes the
      schema of one uninterrupted run, and every version is recorded once. */
  method MigrateUntilDone(d: Database, ms: seq<Migration>, faults: seq<Fault>, ghost start: nat)
    requires Positive(ms) && start <= |ms| && d.db == After(ms, start)
    modifies d
    ensures d.db == After(ms, |ms|)
  {
    ghost var k: nat := start;
    for i := 0 to |faults|
      invariant k <= |ms| && d.db == After(ms, k)
    {
      PrefixIsSkipped(ms, k);
      var applied, ok := d.Migrate(ms, faults[i]);
      PrefixPlus(ms, k, if ok then |ms| else faults[i].index);
      k := if ok then |ms| else faults[i].index;
    }
    PrefixIsSkipped(ms, k);
    var applied, ok := d.Migrate(ms, NoFault);
    PrefixPlus(ms, k, |ms|);
  }

  lemma VersionsAfter(db: Db, ms: seq<Migration>, k: nat, i: nat)
    requires Ascending(ms) && k <= |ms| && i < |ms|
    ensures ms[i].version in Plus(db, ms, k, |ms|).versions <==> k <= i || ms[i].version in db.versions
  {
    var tail := seq(|ms| - k, j requires 0 <= j < |ms| - k => ms[k + j].version);
    assert Plus(db, ms, k, |ms|).versions == db.versions + tail;
    if k <= i {
      assert tail[i - k] == ms[i].version;
    } else {
      assert forall j :: 0 <= j < |tail| ==> tail[j] > ms[i].version;
    }
  }

  /** On any database, a successful run leaves every migration applied exactly when none was
      missing below the highest recorded version: a late migration with a low number is skipped
      for good. */
  lemma CompleteExactly(ms: seq<Migration>, db: Db)
    requires Positive(ms)
    ensures var current := MaxVersion(db.versions);
      var db' := Plus(db, ms, Skipped(ms, current), |ms|);
      (forall i :: 0 <= i < |ms| ==> ms[i].version in db'.versions)
      <==> (forall i :: 0 <= i < |ms| && ms[i].version <= current ==> ms[i].version in db.versions)
  {
    var current := MaxVersion(db.versions);
    var k := Skipped(ms, current);
    SkippedSplits(ms, current);
    forall i | 0 <= i < |ms|
      ensures ms[i].version in Plus(db, ms, k, |ms|).versions
         <==> current < ms[i].version || ms[i].version in db.versions
    {
      VersionsAfter(db, ms, k, i);
    }
  }

  /** One release ships two migrations, the next one a third between them: it is skipped, and the
      run reports success. */
  method LateMigrationIsSkipped(low: Migration, late: Migration, high: Migration)
    returns (d: Database, applied: nat, ok: bool)
    requires 0 < low.version < late.version < high.version
    ensures ok && applied == 0
    ensures d.db.versions == [low.version, high.version] && late.version !in d.db.versions
  {
    var first, second := [low, high], [low, late, high];
    d := new Database(After(first, 0));
    PrefixIsSkipped(first, 0);
    applied, ok := d.Migrate(first, NoFault);
    PrefixPlus(first, 0, 2);
    assert d.db.versions == [low.version, high.version];
    MaxOfAscending(d.db.versions);
    SkippedIs(second, high.version, 3);
    applied, ok := d.Migrate(second, NoFault);
  }

  // ----- several instances -----

  type Pid = int

  datatype Pc =
    | Lock | EnsureTable | ReadVersion
    | RunScript(i: nat) | RecordVersion(i: nat) | CommitOne(i: nat)
    | Unlock(ok: bool)
    | Finished(ok: bool, kept: bool) // the result reported; `kept`: the unlock failed

  datatype State = State(db: Db, procs: map<Pid, Pc>)

  /** `Die`: the process ends or crashes, which drops its transaction and frees its lock. */
  datatype Step = Start(p: Pid) | Tick(p: Pid) | Fail(p: Pid) | Die(p: Pid)

  /** A failed unlock is ignored: the pooled connection keeps the lock until the process ends. */
  predicate HoldsLock(pc: Pc) {
    if pc.Finished? then pc.kept else !pc.Lock?
  }

  predicate LockFree(s: State) {
    forall q :: q in s.procs ==> !HoldsLock(s.procs[q])
  }

  function Goto(s: State, p: Pid, pc: Pc): State {
    s.(procs := s.procs[p := pc])
  }

  function RunFrom(ms: seq<Migration>, i: nat): Pc {
    if i < |ms| then RunScript(i) else Unlock(true)
  }

  function TickProc(ms: seq<Migration>, s: State, p: Pid, pc: Pc): State {
    match pc
    case Lock => if LockFree(s) then Goto(s, p, EnsureTable) else s
    case EnsureTable => Goto(s, p, ReadVersion)
    case ReadVersion => Goto(s, p, RunFrom(ms, Skipped(ms, MaxVersion(s.db.versions))))
    case RunScript(i) => Goto(s, p, RecordVersion(i))
    case RecordVersion(i) =>
      if i < |ms| && ms[i].version in s.db.versions then Goto(s, p, Unlock(false)) else Goto(s, p, CommitOne(i))
    case CommitOne(i) =>
      var db := if i < |ms| then Db(s.db.versions + [ms[i].version], s.db.scripts + [ms[i].sql]) else s.db;
      Goto(s.(db := db), p, RunFrom(ms, i + 1))
    case Unlock(ok) => Goto(s, p, Finished(ok, false))
    case Finished(_, _) => s
  }

  /** Where an error at the next statement leads. */
  function FailPc(pc: Pc): Pc {
    match pc
    case Lock => Finished(false, false)
    case Unlock(ok) => Finished(ok, true)
    case Finished(_, _) => pc
    case _ => Unlock(false)
  }

  function Do(ms: seq<Migration>, s: State, step: Step): State {
    match step
    case Start(p) => if p in s.procs then s else Goto(s, p, Lock)
    case Tick(p) => if p !in s.procs then s else TickProc(ms, s, p, s.procs[p])
    case Fail(p) =>
      if p !in s.procs then s else Goto(s, p, FailPc(s.procs[p]))
    case Die(p) => s.(procs := s.procs - {p})
  }

  function Exec(ms: seq<Migration>, s: State, steps: seq<Step>): State {
    if steps == [] then s else Do(ms, Exec(ms, s, steps[..|steps| - 1]), steps[|steps| - 1])
  }

  /** The database is at a prefix, which only the lock holder moves, and which is complete for
      whoever reports success. */
  ghost predicate AtPrefix(ms: seq<Migration>, s: State, k: nat) {
    && k <= |ms| && s.db == After(ms, k)
    && (forall p :: p in s.procs ==> PcOk(ms, s.procs[p], k))
    && (forall p, q :: p in s.procs && q in s.procs && HoldsLock(s.procs[p]) && HoldsLock(s.procs[q]) ==> p == q)
  }

  predicate PcOk(ms: seq<Migration>, pc: Pc, k: nat) {
    match pc
    case RunScript(i) => i == k < |ms|
    case RecordVersion(i) => i == k < |ms|
    case CommitOne(i) => i == k < |ms|
    case Unlock(ok) => ok ==> k == |ms|
    case Finished(ok, _) => ok ==> k == |ms|
    case _ => true
  }

  lemma AfterOneMore(ms: seq<Migration>, k: nat)
    requires Positive(ms) && k < |ms|
    ensures After(ms, k + 1) == Db(After(ms, k).versions + [ms[k].version], After(ms, k).scripts + [ms[k].sql])
    ensures ms[k].version !in After(ms, k).versions
  {
    var a, b := After(ms, k + 1), After(ms, k);
    assert a.versions == b.versions + [ms[k].version] && a.scripts == b.scripts + [ms[k].sql];
  }

  lemma StepAtPrefix(ms: seq<Migration>, s: State, step: Step, k: nat) returns (k': nat)
    requires Positive(ms) && AtPrefix(ms, s, k)
    ensures k <= k' && AtPrefix(ms, Do(ms, s, step), k')
  {
    k' := k;
    if step.Tick? && step.p in s.procs {
      var pc := s.procs[step.p];
      assert PcOk(ms, pc, k);
      if pc.ReadVersion? {
        PrefixIsSkipped(ms, k);
      } else if pc.RecordVersion? {
        AfterOneMore(ms, k);
      } else if pc.CommitOne? {
        AfterOneMore(ms, k);
        k' := k + 1;
        assert HoldsLock(pc);
      }
    }
  }

  /** With any number of instances, failing or dying at any statement: the recorded versions are a
      prefix of the ascending list, each recorded once, the prefix never shrinks, and once an
      instance reports success the schema is that of one uninterrupted run, for good. */
  lemma {:induction false} AlwaysAPrefix(ms: seq<Migration>, start: nat, steps: seq<Step>) returns (k: nat)
    requires Positive(ms) && start <= |ms|
    ensures var s := Exec(ms, State(After(ms, start), map[]), steps);
      && start <= k <= |ms| && s.db == After(ms, k) && AtPrefix(ms, s, k)
      && ((exists p :: p in s.procs && s.procs[p].Finished? && s.procs[p].ok) ==> s.db == After(ms, |ms|))
  {
    if steps == [] {
      k := start;
    } else {
      var init := steps[..|steps| - 1];
      var k0 := AlwaysAPrefix(ms, start, init);
      k := StepAtPrefix(ms, Exec(ms, State(After(ms, start), map[]), init), steps[|steps| - 1], k0);
      var s := Exec(ms, State(After(ms, start), map[]), steps);
      if p :| p in s.procs && s.procs[p].Finished? && s.procs[p].ok { assert PcOk(ms, s.procs[p], k); }
    }
  }

  /** An error applies and records nothing: the instance gives up, and while it holds the lock it
      goes on to unlock it; an instance that dies is gone, with its lock and its transaction. */
  lemma ErrorsApplyNothing(ms: seq<Migration>, s: State, p: Pid)
    requires p in s.procs
    ensures var s' := Do(ms, s, Fail(p));
      && s'.db == s.db && s'.procs.Keys == s.procs.Keys
      && (forall q :: q in s.procs && q != p ==> s'.procs[q] == s.procs[q])
      && (s.procs[p].Lock? ==> s'.procs[p] == Finished(false, false))
      && (s.procs[p].Unlock? ==> s'.procs[p] == Finished(s.procs[p].ok, true))
      && (s.procs[p].Finished? ==> s'.procs[p] == s.procs[p])
      && (!s.procs[p].Lock? && !s.procs[p].Unlock? && !s.procs[p].Finished? ==> s'.procs[p] == Unlock(false))
    ensures Do(ms, s, Die(p)) == State(s.db, s.procs - {p})
  {
  }

  /** `p` runs its next `k` statements and nobody else does anything. */
  function Solo(ms: seq<Migration>, s: State, p: Pid, k: nat): State
    decreases k
  {
    if k == 0 then s else Solo(ms, Do(ms, s, Tick(p)), p, k - 1)
  }

  lemma {:induction false} SoloApplies(ms: seq<Migration>, s: State, p: Pid, k: nat)
    requires Positive(ms) && k <= |ms| && s.db == After(ms, k) && p in s.procs && s.procs[p] == RunFrom(ms, k)
    ensures Solo(ms, s, p, 3 * (|ms| - k) + 1) == State(After(ms, |ms|), s.procs[p := Finished(true, false)])
    decreases |ms| - k
  {
    if k == |ms| {
      assert Solo(ms, s, p, 1) == Do(ms, s, Tick(p));
    } else {
      AfterOneMore(ms, k);
      var s1 := Do(ms, s, Tick(p));
      var s2 := Do(ms, s1, Tick(p));
      var s3 := Do(ms, s2, Tick(p));
      var left := 3 * (|ms| - k) + 1;
      SoloApplies(ms, s3, p, k + 1);
      assert Solo(ms, s, p, left) == Solo(ms, s1, p, left - 1) == Solo(ms, s2, p, left - 2);
      assert Solo(ms, s2, p, left - 2) == Solo(ms, s3, p, left - 3);
      assert s3.procs[p := Finished(true, false)] == s.procs[p := Finished(true, false)];
    }
  }

  /** An undisturbed instance applies everything that is left, and reports success. */
  lemma InstanceAlone(ms: seq<Migration>, s: State, p: Pid, k: nat)
    requires Positive(ms) && k <= |ms| && s.db == After(ms, k) && LockFree(s) && p !in s.procs
    ensures Solo(ms, Do(ms, s, Start(p)), p, 3 * (|ms| - k) + 4)
         == State(After(ms, |ms|), s.procs[p := Finished(true, false)])
  {
    PrefixIsSkipped(ms, k);
    var left := 3 * (|ms| - k) + 4;
    var s0 := Do(ms, s, Start(p));
    var s1 := Do(ms, s0, Tick(p));
    var s2 := Do(ms, s1, Tick(p));
    var s3 := Do(ms, s2, Tick(p));
    assert LockFree(s0) && s1.procs[p] == EnsureTable && s3.procs[p] == RunFrom(ms, k);
    SoloApplies(ms, s3, p, k);
    assert Solo(ms, s0, p, left) == Solo(ms, s1, p, left - 1) == Solo(ms, s2, p, left - 2) == Solo(ms, s3, p, left - 3);
    assert s3.procs[p := Finished(true, false)] == s.procs[p := Finished(true, false)];
  }
}
