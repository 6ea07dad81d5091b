/** The two attempts of Upload in internal/files/files.go: what becomes of the staged object, when
    the second attempt succeeds. */
module RetryLoop {
  import opened Prelude
  import opened Storage
  import opened Protocol
  import opened SoloRuns

  /** In every run: the staged object is finalized at most once, it is still live when the second
      attempt starts, and an upload that has returned left no temporary file. */
  lemma FinalizedOnce(steps: seq<Step>, p: Pid)
    ensures var s := Exec(INIT, steps);
      p in s.procs && s.procs[p].Upload? ==>
        var u := s.procs[p];
        && u.up != Cleanup(FinalizedTwice) && u.up != Returned(FinalizedTwice)
        && (u.done <==> p !in s.temps)
        && (u.up.Select? || u.up.InsertBlob? || u.up.Publish? ==> p in s.temps)
        && (u.up.Returned? ==> p !in s.temps)
  {
    RunSane(INIT, steps);
    var s := Exec(INIT, steps);
    if p in s.procs { assert ProcOk(s, p, s.procs[p]); }
  }

  // ----- the second attempt -----

  /** A delete's commit takes the blob row away just when upload `p` is to look for it again. */
  ghost predicate LostRow(s: State, step: Step, p: Pid) {
    && p in s.procs && s.procs[p].Upload? && s.procs[p].attempt == 1 && s.procs[p].up.Select?
    && step.Tick? && step.p in s.procs && s.procs[step.p].Delete? && s.procs[step.p].hash == s.procs[p].cargo.hash
    && s.procs[step.p].del.CommitDelete? && s.procs[step.p].del.row.refs == 0
  }

  ghost predicate NoLostRow(s: State, steps: seq<Step>, p: Pid) {
    steps == [] ||
    var init, last := steps[..|steps| - 1], steps[|steps| - 1];
    NoLostRow(s, init, p) && !LostRow(Exec(s, init), last, p)
  }

  /** What the retry loop keeps for upload `p`. `calm`: none of its statements has failed. */
  ghost predicate Retries(s: State, p: Pid, calm: bool) {
    p in s.procs && s.procs[p].Upload? ==>
      var u := s.procs[p];
      && u.attempt <= 1
      && (u.attempt == 1 && u.up.Select? ==> u.cargo.hash in s.rows)
      && (u.attempt == 1 ==> !u.up.InsertBlob?)
      && (u.up.Cleanup? ==> RightOutcome(u.up.outcome, calm))
      && (u.up.Returned? ==> RightOutcome(u.up.outcome, calm))
  }

  predicate RightOutcome(outcome: Outcome, calm: bool) {
    (outcome == Ok || outcome == OtherError) && (calm ==> outcome == Ok)
  }

  lemma OwnTickRetries(s: State, p: Pid, calm: bool)
    requires Sane(s) && Retries(s, p, calm) && p in s.procs && s.procs[p].Upload?
    ensures Retries(TickUpload(s, p, s.procs[p]), p, calm)
  {
    assert ProcOk(s, p, s.procs[p]);
  }

  /** Only a delete's commit with no reference left takes a row away. */
  lemma RowsStay(s: State, step: Step, h: bytes)
    requires h in s.rows && h !in Do(s, step).rows
    ensures step.Tick? && step.p in s.procs && s.procs[step.p].Delete? && s.procs[step.p].hash == h
    ensures s.procs[step.p].del.CommitDelete? && s.procs[step.p].del.row.refs == 0
  {
  }

  lemma OtherStepKeeps(s: State, step: Step, p: Pid)
    requires step != Tick(p) && step != Fail(p) && step != Crash && p in s.procs && p in s.born
    ensures p in Do(s, step).procs && Do(s, step).procs[p] == s.procs[p]
  {
    if step.Tick? && step.p in s.procs { TickMovesOnly(s, step.p); }
  }

  lemma StepRetries(s: State, step: Step, p: Pid, calm: bool)
    requires Sane(s) && Retries(s, p, calm) && !LostRow(s, step, p) && (calm ==> step != Fail(p))
    ensures Retries(Do(s, step), p, calm)
  {
    if p in s.procs {
      assert ProcOk(s, p, s.procs[p]);
      if step == Tick(p) {
        if s.procs[p].Upload? { OwnTickRetries(s, p, calm); }
      } else if step != Fail(p) && step != Crash {
        OtherStepKeeps(s, step, p);
        if s.procs[p].Upload? && s.procs[p].cargo.hash in s.rows && s.procs[p].cargo.hash !in Do(s, step).rows {
          RowsStay(s, step, s.procs[p].cargo.hash);
        }
      }
    }
  }

  lemma {:induction false} RunRetries(s: State, steps: seq<Step>, p: Pid, calm: bool)
    requires Sane(s) && Retries(s, p, calm) && NoLostRow(s, steps, p) && (calm ==> Fail(p) !in steps)
    ensures Sane(Exec(s, steps)) && Retries(Exec(s, steps), p, calm)
  {
    if steps == [] {
    } else {
      var init, last := steps[..|steps| - 1], steps[|steps| - 1];
      assert last in steps && forall x :: x in init ==> x in steps;
      RunRetries(s, init, p, calm);
      StepSane(Exec(s, init), last);
      StepRetries(Exec(s, init), last, p, calm);
    }
  }

  /** In every run in which no delete takes the row away between the two attempts of upload `p`,
      the second attempt finds it: no conflict is reported, and an upload none of whose statements
      fails otherwise succeeds. Others may fail, delete, and crash. */
  lemma SecondAttemptFindsTheRow(steps: seq<Step>, p: Pid)
    requires NoLostRow(INIT, steps, p)
    ensures var s := Exec(INIT, steps);
      p in s.procs && s.procs[p].Upload? ==>
        var u := s.procs[p];
        && u.attempt <= 1 && (u.attempt == 1 && u.up.Select? ==> u.cargo.hash in s.rows)
        && u.up != Cleanup(Conflict) && u.up != Returned(Conflict)
        && (Fail(p) !in steps && u.up.Returned? ==> u.up == Returned(Ok))
  {
    RunRetries(INIT, steps, p, Fail(p) !in steps);
  }

  /** No delete of node `n` has been authorized. */
  ghost predicate Undeleted(s: State, n: Pid) {
    forall d :: d in s.procs && s.procs[d].Delete? ==> s.procs[d].node != n
  }

  lemma TickKeepsNode(s: State, q: Pid, n: Pid)
    requires Sane(s) && Undeleted(s, n)
    ensures Undeleted(Do(s, Tick(q)), n) && (n in s.nodes ==> n in Do(s, Tick(q)).nodes)
  {
    if q in s.procs { TickMovesOnly(s, q); }
  }

  /** A committed node stays until somebody asks for its deletion. */
  lemma {:induction false} OkMeansStored(steps: seq<Step>, p: Pid)
    requires forall d :: StartDelete(d, p) !in steps
    ensures var s := Exec(INIT, steps);
      && Sane(s) && Undeleted(s, p)
      && (Succeeded(s, p) ==> p in s.nodes)
  {
    if steps == [] {
    } else {
      var init, last := steps[..|steps| - 1], steps[|steps| - 1];
      assert last in steps && forall x :: x in init ==> x in steps;
      OkMeansStored(init, p);
      var s := Exec(INIT, init);
      StepSane(s, last);
      OkStep(s, last, p);
    }
  }

  /** Upload `p` has succeeded. */
  predicate Succeeded(s: State, p: Pid) {
    p in s.procs && s.procs[p].Upload? && (s.procs[p].up == Cleanup(Ok) || s.procs[p].up == Returned(Ok))
  }

  lemma OwnSuccess(s: State, p: Pid)
    requires Sane(s) && (Succeeded(s, p) ==> p in s.nodes)
    ensures Succeeded(Do(s, Tick(p)), p) ==> Succeeded(s, p) || p in Do(s, Tick(p)).nodes
  {
    if p in s.procs { assert ProcOk(s, p, s.procs[p]); }
  }

  lemma OkStep(s: State, step: Step, p: Pid)
    requires Sane(s) && Undeleted(s, p) && (step.StartDelete? ==> step.node != p)
    requires Succeeded(s, p) ==> p in s.nodes
    ensures Undeleted(Do(s, step), p) && (Succeeded(Do(s, step), p) ==> p in Do(s, step).nodes)
  {
    if step.Tick? {
      TickKeepsNode(s, step.p, p);
      if step.p == p {
        OwnSuccess(s, p);
      } else if step.p in s.procs {
        TickMovesOnly(s, step.p);
      }
    }
  }

  predicate UploadsOnly(steps: seq<Step>) {
    forall i :: 0 <= i < |steps| ==> !steps[i].StartDelete?
  }

  ghost predicate NoDeletes(s: State) {
    forall q :: q in s.procs ==> s.procs[q].Upload?
  }

  lemma NoDeletesStep(s: State, step: Step)
    requires NoDeletes(s) && !step.StartDelete?
    ensures NoDeletes(Do(s, step))
  {
    if step.Tick? && step.p in s.procs { TickMovesOnly(s, step.p); }
  }

  /** Among uploads only no row is ever lost. */
  lemma {:induction false} UploadsLoseNothing(steps: seq<Step>, p: Pid)
    requires UploadsOnly(steps)
    ensures NoLostRow(INIT, steps, p) && NoDeletes(Exec(INIT, steps))
  {
    if steps == [] {
    } else {
      var init := steps[..|steps| - 1];
      UploadsLoseNothing(init, p);
      NoDeletesStep(Exec(INIT, init), steps[|steps| - 1]);
    }
  }

  // ----- a conflict that reaches the user -----

  lemma {:induction false} Bounded(some: set<int>) returns (q: int)
    ensures forall x :: x in some ==> x < q
    decreases |some|
  {
    if some == {} {
      q := 0;
    } else {
      SomeMember(some);
      var x :| x in some;
      q := Bounded(some - {x});
      if q <= x { q := x + 1; }
      forall y | y in some ensures y < q { if y != x { assert y in some - {x}; } }
    }
  }

  /** `p` is about to make its second attempt. */
  ghost predicate TriesAgain(s: State, p: Pid) {
    Sane(s) && p in s.procs && s.procs[p].Upload? && s.procs[p].attempt == 1 && s.procs[p].up.Select?
  }

  predicate ReportsConflict(s: State, p: Pid) {
    p in s.procs && s.procs[p].Upload? && (s.procs[p].up == Cleanup(Conflict) || s.procs[p].up == Returned(Conflict))
  }

  /** Statements of uploads `p` and `q` only. */
  predicate Among(steps: seq<Step>, p: Pid, q: Pid) {
    forall i :: 0 <= i < |steps| ==>
      steps[i] == Tick(p) || steps[i] == Tick(q) || (steps[i].StartUpload? && steps[i].p == q)
  }

  ghost predicate BothUpload(s: State, p: Pid, q: Pid) {
    p in s.procs && s.procs[p].Upload? && (q in s.procs ==> s.procs[q].Upload?)
  }

  lemma AmongStep(s: State, step: Step, p: Pid, q: Pid)
    requires BothUpload(s, p, q) && Among([step], p, q)
    ensures BothUpload(Do(s, step), p, q) && !LostRow(s, step, p)
  {
    assert [step][0] == step;
    if step.Tick? && step.p in s.procs { TickMovesOnly(s, step.p); }
  }

  lemma {:induction false} AmongUploadsLoseNothing(s: State, steps: seq<Step>, p: Pid, q: Pid)
    requires Among(steps, p, q) && BothUpload(s, p, q)
    ensures NoLostRow(s, steps, p) && BothUpload(Exec(s, steps), p, q)
  {
    if steps == [] {
    } else {
      var init := steps[..|steps| - 1];
      AmongUploadsLoseNothing(s, init, p, q);
      AmongStep(Exec(s, init), steps[|steps| - 1], p, q);
    }
  }

  /** Where upload `p` finds its row gone, another upload of the content makes it fail. */
  lemma ConflictWhenFree(s: State, p: Pid) returns (steps: seq<Step>)
    requires TriesAgain(s, p) && s.procs[p].cargo.hash !in s.rows && Free(s, s.procs[p].cargo.hash)
    ensures NoLostRow(s, steps, p) && ReportsConflict(Exec(s, steps), p)
  {
    var cargo := s.procs[p].cargo;
    var q := Bounded(s.born);
    var s1 := Do(s, Tick(p));
    assert s1 == Goto(s, p, s.procs[p], InsertBlob);
    NumbersAreBorn(s);
    StepSane(s, Tick(p));
    FreeAgain(s, s1, p, cargo.hash);
    UploadAlone(s1, q, cargo);
    var s2 := Uploaded(s1, q, cargo);
    steps := [Tick(p)] + UploadSteps(q, cargo) + [Tick(p)];
    ExecThree(s, [Tick(p)], UploadSteps(q, cargo), [Tick(p)]);
    assert [Tick(p)][..0] == [] && Exec(s, []) == s && Exec(s2, []) == s2;
    FreeAfterUpload(s1, q, cargo);
    AmongUploadsLoseNothing(s, steps, p, q);
  }

  /** Who holds the lock of a blob without a row is an upload, and an error makes it let go. */
  lemma HolderFails(s: State, p: Pid, h: bytes, q: Pid)
    requires TriesAgain(s, p) && s.procs[p].cargo.hash == h && h !in s.rows
    requires q in s.procs && Holds(s.procs[q], h)
    ensures var s' := Do(s, Fail(q));
      && q != p && TriesAgain(s', p) && s'.procs[p] == s.procs[p] && s'.rows == s.rows && Free(s', h)
  {
    assert ProcOk(s, q, s.procs[q]);
    StepSane(s, Fail(q));
    var s' := Do(s, Fail(q));
    forall k | k in s'.procs
      ensures !Holds(s'.procs[k], h)
    {
      if k != q { assert s'.procs[k] == s.procs[k]; }
    }
  }

  lemma {:induction false} NoLostRowBefore(s: State, step: Step, steps: seq<Step>, p: Pid)
    requires !LostRow(s, step, p) && NoLostRow(Do(s, step), steps, p)
    ensures NoLostRow(s, [step] + steps, p) && Exec(s, [step] + steps) == Exec(Do(s, step), steps)
  {
    var all := [step] + steps;
    if steps == [] {
      assert all == [step] && [step][..0] == [];
      assert Exec(s, []) == s && NoLostRow(s, [], p);
    } else {
      var init, last := steps[..|steps| - 1], steps[|steps| - 1];
      assert all[..|all| - 1] == [step] + init && all[|all| - 1] == last;
      NoLostRowBefore(s, step, init, p);
    }
  }

  /** The same while another upload holds the blob: it may fail first. */
  lemma ConflictWithoutRow(s: State, p: Pid) returns (steps: seq<Step>)
    requires TriesAgain(s, p) && s.procs[p].cargo.hash !in s.rows
    ensures NoLostRow(s, steps, p) && ReportsConflict(Exec(s, steps), p)
  {
    var h := s.procs[p].cargo.hash;
    if q :| q in s.procs && Holds(s.procs[q], h) {
      HolderFails(s, p, h, q);
      steps := ConflictWhenFree(Do(s, Fail(q)), p);
      NoLostRowBefore(s, Fail(q), steps, p);
      steps := [Fail(q)] + steps;
    } else {
      steps := ConflictWhenFree(s, p);
    }
  }

  lemma FreeAgain(s: State, s1: State, p: Pid, h: bytes)
    requires Free(s, h) && p in s1.procs && s1.procs == s.procs[p := s1.procs[p]] && !Holds(s1.procs[p], h)
    ensures Free(s1, h)
  {
  }

  lemma FreeAfterUpload(s: State, q: Pid, cargo: Envelope)
    requires Free(s, cargo.hash)
    ensures Free(Uploaded(s, q, cargo), cargo.hash)
  {
  }

  /** The exact condition for the second attempt: as long as no delete takes the row away from now
      on, whatever happens, upload `p` reports no conflict exactly when the row is there now. */
  lemma SecondAttemptExactly(s: State, p: Pid)
    requires TriesAgain(s, p)
    ensures (forall steps :: NoLostRow(s, steps, p) ==> !ReportsConflict(Exec(s, steps), p))
       <==> s.procs[p].cargo.hash in s.rows
  {
    if s.procs[p].cargo.hash in s.rows {
      forall steps | NoLostRow(s, steps, p)
        ensures !ReportsConflict(Exec(s, steps), p)
      {
        RunRetries(s, steps, p, false);
      }
    } else {
      var steps := ConflictWithoutRow(s, p);
      assert exists bad :: NoLostRow(s, bad, p) && ReportsConflict(Exec(s, bad), p);
    }
  }

  /** Upload 1 waits at `pc`, and every other request is finished. */
  ghost predicate Waiting(s: State, cargo: Envelope, attempt: nat, pc: UploadPc) {
    && Sane(s) && 1 in s.procs && s.procs[1] == Upload(cargo, attempt, false, pc) && (pc.Select? || pc.InsertBlob?)
    && forall q :: q in s.procs && q != 1 ==> Finished(s.procs[q])
  }

  /** Exactly node `n` names the blob. */
  ghost predicate OneNode(s: State, hash: bytes, n: Pid) {
    && n in s.nodes && s.nodes[n] == hash && hash in s.rows && s.rows[hash].refs == 1
    && forall k :: k in s.nodes && s.nodes[k] == hash ==> k == n
  }

  lemma NumbersAreBorn(s: State)
    requires Sane(s)
    ensures forall q :: q in s.procs ==> q in s.born
  {
    forall q | q in s.procs ensures ProcOk(s, q, s.procs[q]) { }
  }

  lemma SomeoneUploads(s: State, cargo: Envelope, attempt: nat, pc: UploadPc, q: Pid)
    requires Waiting(s, cargo, attempt, pc) && cargo.hash !in s.rows && q !in s.born
    requires forall k :: k in s.nodes ==> s.nodes[k] != cargo.hash
    ensures var s' := Exec(s, [StartUpload(q, cargo)] + Ticks(q, 6));
      Waiting(s', cargo, attempt, pc) && OneNode(s', cargo.hash, q) && s'.born == s.born + {q}
  {
    NumbersAreBorn(s);
    UploadAlone(s, q, cargo);
    RunSane(s, [StartUpload(q, cargo)] + Ticks(q, 6));
  }

  lemma SomeoneDeletes(s: State, cargo: Envelope, attempt: nat, pc: UploadPc, d: Pid, n: Pid)
    requires Waiting(s, cargo, attempt, pc) && OneNode(s, cargo.hash, n) && d !in s.born
    ensures var s' := Exec(s, [StartDelete(d, n)] + Ticks(d, 5));
      && Waiting(s', cargo, attempt, pc) && cargo.hash !in s'.rows && s'.born == s.born + {d}
      && forall k :: k in s'.nodes ==> s'.nodes[k] != cargo.hash
  {
    NumbersAreBorn(s);
    var s1 := Do(s, StartDelete(d, n));
    StartThenTicks(s, StartDelete(d, n), d, 5);
    DeleteAlone(s1, d);
    RunSane(s, [StartDelete(d, n)] + Ticks(d, 5));
  }

  lemma WaiterMoves(s: State, cargo: Envelope, attempt: nat, pc: UploadPc)
    requires Waiting(s, cargo, attempt, pc)
    ensures pc.Select? && cargo.hash !in s.rows ==>
      Waiting(Exec(s, [Tick(1)]), cargo, attempt, InsertBlob)
    ensures pc.InsertBlob? && cargo.hash in s.rows && attempt == 0 ==> Waiting(Exec(s, [Tick(1)]), cargo, 1, Select)
    ensures pc.InsertBlob? && cargo.hash in s.rows && attempt == 1 ==>
      1 in Exec(s, [Tick(1)]).procs && Exec(s, [Tick(1)]).procs[1] == Upload(cargo, 1, false, Cleanup(Conflict))
    ensures var s' := Exec(s, [Tick(1)]); s'.rows == s.rows && s'.nodes == s.nodes && s'.born == s.born
  {
    assert [Tick(1)][..0] == [] && Exec(s, []) == s;
    assert Free(s, cargo.hash);
    RunSane(s, [Tick(1)]);
  }

  /** Upload 1 has found no row, and is about to insert it. */
  lemma FirstWait(cargo: Envelope)
    ensures var s := Exec(INIT, [StartUpload(1, cargo)] + Ticks(1, 1));
      Waiting(s, cargo, 0, InsertBlob) && s.rows == map[] && s.nodes == map[] && s.born == {1}
  {
    StartThenTicks(INIT, StartUpload(1, cargo), 1, 1);
    var s0 := Do(INIT, StartUpload(1, cargo));
    OneMoreTick(s0, 1, 0);
    assert Exec(s0, Ticks(1, 0)) == s0;
    RunSane(INIT, [StartUpload(1, cargo)] + Ticks(1, 1));
  }

  /** Another upload of the content wins the insert; its node is deleted; and upload 1, on its
      second attempt, is about to insert the row again. */
  lemma SecondWait(s: State, cargo: Envelope) returns (steps: seq<Step>)
    requires Waiting(s, cargo, 0, InsertBlob) && s.rows == map[] && s.nodes == map[] && s.born == {1}
    ensures var s' := Exec(s, steps);
      && Waiting(s', cargo, 1, InsertBlob) && cargo.hash !in s'.rows && s'.born == {1, 2, 3}
      && forall k :: k in s'.nodes ==> s'.nodes[k] != cargo.hash
  {
    var a, b := [StartUpload(2, cargo)] + Ticks(2, 6), [StartDelete(3, 2)] + Ticks(3, 5);
    SomeoneUploads(s, cargo, 0, InsertBlob, 2);
    var s1 := Exec(s, a);
    WaiterMoves(s1, cargo, 0, InsertBlob);
    var s2 := Exec(s1, [Tick(1)]);
    SomeoneDeletes(s2, cargo, 1, Select, 3, 2);
    var s3 := Exec(s2, b);
    WaiterMoves(s3, cargo, 1, Select);
    steps := a + [Tick(1)] + b + [Tick(1)];
    ExecConcat(s, a, [Tick(1)]);
    ExecConcat(s, a + [Tick(1)], b);
    ExecConcat(s, a + [Tick(1)] + b, [Tick(1)]);
  }

  /** With deletes about, two attempts are not enough: a content uploaded, deleted and uploaded
      again by others in between makes an upload report the conflict. */
  lemma ConflictTakesADelete(cargo: Envelope) returns (steps: seq<Step>)
    ensures var s := Exec(INIT, steps); 1 in s.procs && s.procs[1] == Upload(cargo, 1, false, Cleanup(Conflict))
  {
    var start, c := [StartUpload(1, cargo)] + Ticks(1, 1), [StartUpload(4, cargo)] + Ticks(4, 6);
    FirstWait(cargo);
    var s0 := Exec(INIT, start);
    var middle := SecondWait(s0, cargo);
    var s1 := Exec(s0, middle);
    SomeoneUploads(s1, cargo, 1, InsertBlob, 4);
    WaiterMoves(Exec(s1, c), cargo, 1, InsertBlob);
    steps := start + middle + c + [Tick(1)];
    ExecConcat(INIT, start, middle);
    ExecConcat(INIT, start + middle, c);
    ExecConcat(INIT, start + middle + c, [Tick(1)]);
  }
}
