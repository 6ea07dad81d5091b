/** Do concurrent uploads and deletes get to their end? Every request runs a bounded number of
    statements, and the one way to a deadlock is two deletes that cross: one holds a blob's lock and
    its foreign-key check waits for a node, the other holds that node and waits for the blob. */
module Progress {
  import opened Prelude
  import opened Storage
  import opened Protocol
  import opened SoloRuns
  import opened ReferenceCounts

  /** How many statements a request may still run. */
  function Rank(q: Proc): nat {
    match q
    case Upload(_, attempt, _, up) =>
      (match up
       case Select => if attempt == 0 then 10 else 8
       case InsertBlob => if attempt == 0 then 9 else 7
       case Publish(_) => 6
       case Update => 6
       case Discard(_) => 5
       case InsertNode(_) => 4
       case CommitUpload(_) => 3
       case Cleanup(_) => 1
       case Returned(_) => 0)
    case Delete(_, _, del) =>
      (match del
       case DeleteNode => 5
       case Dereference(_) => 4
       case DeleteBlob(_, _) => 3
       case CommitDelete(_, _) => 2
       case Unlink => 1
       case Deleted => 0
       case Failed => 0)
  }

  /** A statement that gets through brings its request nearer to the end and moves no other. */
  lemma TickAdvances(s: State, p: Pid)
    requires p in s.procs && Do(s, Tick(p)) != s
    ensures var s' := Do(s, Tick(p));
      && p in s'.procs && Rank(s'.procs[p]) < Rank(s.procs[p])
      && forall q :: q != p ==> (q in s'.procs <==> q in s.procs) && (q in s.procs ==> s'.procs[q] == s.procs[q])
  {
    if s.procs[p].Upload? { UploadAdvances(s, p); } else { DeleteAdvances(s, p); }
  }

  lemma UploadAdvances(s: State, p: Pid)
    requires p in s.procs && s.procs[p].Upload? && TickUpload(s, p, s.procs[p]) != s
    ensures var s' := TickUpload(s, p, s.procs[p]);
      p in s'.procs && s'.procs == s.procs[p := s'.procs[p]] && Rank(s'.procs[p]) < Rank(s.procs[p])
  {
    var s' := TickUpload(s, p, s.procs[p]);
    match s.procs[p].up
    case Select => assert Rank(s'.procs[p]) < Rank(s.procs[p]);
    case InsertBlob => assert Rank(s'.procs[p]) < Rank(s.procs[p]);
    case _ =>
  }

  lemma DeleteAdvances(s: State, p: Pid)
    requires p in s.procs && s.procs[p].Delete? && TickDelete(s, p, s.procs[p]) != s
    ensures var s' := TickDelete(s, p, s.procs[p]);
      p in s'.procs && s'.procs == s.procs[p := s'.procs[p]] && Rank(s'.procs[p]) < Rank(s.procs[p])
  {
    var s' := TickDelete(s, p, s.procs[p]);
    match s.procs[p].del
    case DeleteNode => assert Rank(s'.procs[p]) < Rank(s.procs[p]);
    case Dereference(_) => assert Rank(s'.procs[p]) < Rank(s.procs[p]);
    case _ =>
  }

  /** How many statements of `p` got through in a run. */
  function Statements(steps: seq<Step>, p: Pid): nat {
    if steps == [] then 0
    else
      var init, last := steps[..|steps| - 1], steps[|steps| - 1];
      Statements(init, p) + if last == Tick(p) && Do(Exec(INIT, init), last) != Exec(INIT, init) then 1 else 0
  }

  /** The statements left to `p`: all of them before it has a number. */
  function Left(s: State, p: Pid): nat {
    if p in s.procs then Rank(s.procs[p]) else if p in s.born then 0 else 10
  }

  lemma TickUsesOne(s: State, q: Pid, p: Pid)
    requires Do(s, Tick(q)) != s && (p in s.procs ==> p in s.born)
    ensures Left(Do(s, Tick(q)), p) + (if p == q then 1 else 0) <= Left(s, p)
    ensures p in Do(s, Tick(q)).procs ==> p in Do(s, Tick(q)).born
  {
    TickAdvances(s, q);
    TickNumbersNobody(s, q);
  }

  lemma TickNumbersNobody(s: State, p: Pid)
    requires p in s.procs
    ensures Do(s, Tick(p)).born == s.born
  {
  }

  lemma StepUsesOne(s: State, step: Step, p: Pid)
    requires p in s.procs ==> p in s.born
    ensures Left(Do(s, step), p) + (if step == Tick(p) && Do(s, step) != s then 1 else 0) <= Left(s, p)
    ensures p in Do(s, step).procs ==> p in Do(s, step).born
  {
    if step.Tick? && Do(s, step) != s { TickUsesOne(s, step.p, p); }
  }

  /** Nobody runs on forever: no request gets more than ten statements through in any run, however
      often it is tried. */
  lemma {:induction false} TenStatements(steps: seq<Step>, p: Pid)
    ensures Statements(steps, p) + Left(Exec(INIT, steps), p) <= 10
    ensures p in Exec(INIT, steps).procs ==> p in Exec(INIT, steps).born
  {
    if steps == [] {
    } else {
      var init, last := steps[..|steps| - 1], steps[|steps| - 1];
      TenStatements(init, p);
      StepUsesOne(Exec(INIT, init), last, p);
    }
  }

  // ----- deadlock -----

  /** Delete `p` has taken the last reference and deletes the blob row; delete `q` has deleted
      another node that still names the blob, and waits for the blob's lock. */
  predicate Crossed(s: State, p: Pid, q: Pid) {
    && p in s.procs && s.procs[p].Delete? && s.procs[p].del.DeleteBlob?
    && q in s.procs && s.procs[q].Delete? && s.procs[q].del == Dereference(true)
    && s.procs[q].hash == s.procs[p].hash
  }

  ghost predicate NoneCrossed(s: State) {
    forall p, q :: !Crossed(s, p, q)
  }

  /** Delete `p` waits at the foreign-key check exactly when some delete crosses it. */
  lemma CheckWaitsExactly(s: State, p: Pid)
    requires Sane(s) && p in s.procs && s.procs[p].Delete? && s.procs[p].del.DeleteBlob?
    ensures Do(s, Tick(p)) == s <==> exists q :: Crossed(s, p, q)
  {
    var d := s.procs[p];
    var removed := d.del.removed;
    assert ProcOk(s, p, d) && Holds(d, d.hash);
    if AnotherLocked(s, d.hash, removed, d.node) {
      var n :| n in s.nodes && s.nodes[n] == d.hash && !(removed && n == d.node) && !NodeFree(s, n);
      var q :| q in s.procs && HoldsNode(s.procs[q], n);
      assert ProcOk(s, q, s.procs[q]);
      assert !Holds(s.procs[q], d.hash);
      assert Crossed(s, p, q);
    } else {
      assert Do(s, Tick(p)).procs[p] != d;
      forall q | q in s.procs && s.procs[q].Delete? && HoldsNode(s.procs[q], s.procs[q].node)
        ensures !Crossed(s, p, q)
      {
        assert ProcOk(s, q, s.procs[q]) && !NodeFree(s, s.procs[q].node);
      }
    }
  }

  /** The request holds some lock. */
  predicate HoldsSomething(q: Proc) {
    (q.Upload? && Holds(q, q.cargo.hash)) || (q.Delete? && (Holds(q, q.hash) || HoldsNode(q, q.node)))
  }

  lemma BlobHolderMoves(s: State, r: Pid, h: bytes)
    requires Sane(s) && NoneCrossed(s) && r in s.procs && Holds(s.procs[r], h)
    ensures Do(s, Tick(r)) != s && HoldsSomething(s.procs[r])
  {
    assert ProcOk(s, r, s.procs[r]);
    if s.procs[r].Delete? && s.procs[r].del.DeleteBlob? {
      CheckWaitsExactly(s, r);
    } else {
      assert Do(s, Tick(r)).procs[r] != s.procs[r];
    }
  }

  lemma NodeHolderMoves(s: State, r: Pid, n: Pid) returns (q: Pid)
    requires Sane(s) && NoneCrossed(s) && r in s.procs && HoldsNode(s.procs[r], n)
    ensures q in s.procs && Do(s, Tick(q)) != s && HoldsSomething(s.procs[q])
  {
    q := r;
    if s.procs[r].del.Dereference? {
      var h := s.procs[r].hash;
      if Free(s, h) {
        assert Do(s, Tick(r)).procs[r] != s.procs[r];
      } else {
        q :| q in s.procs && Holds(s.procs[q], h);
        BlobHolderMoves(s, q, h);
      }
    } else {
      BlobHolderMoves(s, r, s.procs[r].hash);
    }
  }

  /** What an unfinished request that cannot move waits for. */
  lemma WaitsFor(s: State, p: Pid)
    requires Sane(s) && NoneCrossed(s) && p in s.procs && !Finished(s.procs[p]) && Do(s, Tick(p)) == s
    ensures if s.procs[p].Upload? then !Free(s, s.procs[p].cargo.hash)
            else if s.procs[p].del.DeleteNode? then !NodeFree(s, s.procs[p].node)
            else !Free(s, s.procs[p].hash)
  {
    var s' := Do(s, Tick(p));
    assert s'.procs[p] == s.procs[p];
    if s.procs[p].Delete? && s.procs[p].del.DeleteBlob? { CheckWaitsExactly(s, p); }
  }

  /** Where nobody is crossed, a request that cannot move waits for one that can and holds a lock. */
  lemma HolderMoves(s: State, p: Pid) returns (q: Pid)
    requires Sane(s) && NoneCrossed(s) && p in s.procs && !Finished(s.procs[p]) && Do(s, Tick(p)) == s
    ensures q in s.procs && Do(s, Tick(q)) != s && HoldsSomething(s.procs[q])
  {
    WaitsFor(s, p);
    var c := s.procs[p];
    if c.Delete? && c.del.DeleteNode? {
      var r :| r in s.procs && HoldsNode(s.procs[r], c.node);
      q := NodeHolderMoves(s, r, c.node);
    } else {
      var h := if c.Upload? then c.cargo.hash else c.hash;
      q :| q in s.procs && Holds(s.procs[q], h);
      BlobHolderMoves(s, q, h);
    }
  }

  /** Where nobody is crossed and some request is unfinished, some request can run its next
      statement. */
  lemma SomeoneMoves(s: State, p: Pid) returns (q: Pid)
    requires Sane(s) && NoneCrossed(s) && p in s.procs && !Finished(s.procs[p])
    ensures q in s.procs && Do(s, Tick(q)) != s
  {
    if Do(s, Tick(p)) != s {
      q := p;
    } else {
      q := HolderMoves(s, p);
    }
  }

  /** Nothing but an error or a crash of its members resolves a set of requests. */
  predicate Spares(step: Step, some: set<Pid>) {
    step != Crash && (step.Fail? ==> step.p !in some)
  }

  /** A deadlock: unfinished requests of which none moves again, whatever the others do, finish or
      fail. */
  ghost predicate Deadlock(s: State, some: set<Pid>) {
    && some != {} && some <= s.procs.Keys
    && (forall p :: p in some ==> !Finished(s.procs[p]))
    && (forall steps, p :: p in some && (forall i :: 0 <= i < |steps| ==> Spares(steps[i], some)) ==>
          Do(Exec(s, steps), Tick(p)) == Exec(s, steps))
  }

  lemma CrossedStep(s: State, step: Step, p: Pid, q: Pid)
    requires Sane(s) && Crossed(s, p, q) && Spares(step, {p, q})
    ensures Crossed(Do(s, step), p, q)
  {
    CheckWaitsExactly(s, p);
    assert ProcOk(s, p, s.procs[p]) && Holds(s.procs[p], s.procs[p].hash);
    assert Do(s, Tick(q)) == s;
    assert ProcOk(s, q, s.procs[q]);
    if step.Tick? && step.p in s.procs && Do(s, step) != s { TickAdvances(s, step.p); }
  }

  lemma {:induction false} CrossedForGood(s: State, steps: seq<Step>, p: Pid, q: Pid)
    requires Sane(s) && Crossed(s, p, q) && forall i :: 0 <= i < |steps| ==> Spares(steps[i], {p, q})
    ensures Sane(Exec(s, steps)) && Crossed(Exec(s, steps), p, q)
    ensures Do(Exec(s, steps), Tick(p)) == Exec(s, steps) == Do(Exec(s, steps), Tick(q))
  {
    if steps == [] {
    } else {
      var init, last := steps[..|steps| - 1], steps[|steps| - 1];
      CrossedForGood(s, init, p, q);
      CrossedStep(Exec(s, init), last, p, q);
      StepSane(Exec(s, init), last);
    }
    var s' := Exec(s, steps);
    CheckWaitsExactly(s', p);
    assert ProcOk(s', p, s'.procs[p]) && Holds(s'.procs[p], s'.procs[p].hash);
  }

  lemma FailReleases(s: State, q: Pid)
    requires Sane(s) && q in s.procs
    ensures var s' := Do(s, Fail(q));
      && Sane(s') && q in s'.procs && s'.procs == s.procs[q := s'.procs[q]] && !HoldsSomething(s'.procs[q])
  {
    FailSane(s, q);
  }

  /** `s'` is `s` with these requests out of the way. */
  ghost predicate Released(s: State, s': State, others: set<Pid>) {
    && Sane(s') && s'.procs.Keys == s.procs.Keys
    && (forall p :: p in s.procs && p !in others ==> s'.procs[p] == s.procs[p])
    && (forall p :: p in others && p in s'.procs ==> !HoldsSomething(s'.procs[p]))
  }

  /** The errors of these requests, one after the other. */
  lemma {:induction false} FailAll(s: State, others: set<Pid>) returns (steps: seq<Step>)
    requires Sane(s) && others <= s.procs.Keys
    ensures forall i :: 0 <= i < |steps| ==> steps[i].Fail? && steps[i].p in others
    ensures Released(s, Exec(s, steps), others)
    decreases |others|
  {
    if others == {} {
      steps := [];
    } else {
      SomeMember(others);
      var q :| q in others;
      var init := FailAll(s, others - {q});
      steps := init + [Fail(q)];
      assert steps[..|steps| - 1] == init;
      FailReleases(Exec(s, init), q);
    }
  }

  /** A deadlock is there exactly when two deletes have crossed. */
  lemma DeadlockExactly(s: State)
    requires Sane(s)
    ensures (exists some :: Deadlock(s, some)) <==> !NoneCrossed(s)
  {
    if some :| Deadlock(s, some) {
      DeadlockIsCrossed(s, some);
    }
    if p, q :| Crossed(s, p, q) {
      CrossedIsDeadlock(s, p, q);
    }
  }

  lemma CrossedIsDeadlock(s: State, p: Pid, q: Pid)
    requires Sane(s) && Crossed(s, p, q)
    ensures Deadlock(s, {p, q})
  {
    forall steps, r | r in {p, q} && (forall i :: 0 <= i < |steps| ==> Spares(steps[i], {p, q}))
      ensures Do(Exec(s, steps), Tick(r)) == Exec(s, steps)
    {
      CrossedForGood(s, steps, p, q);
    }
  }

  /** Requests that hold all the locks and none of which moves have crossed. */
  lemma StuckIsCrossed(s: State, some: set<Pid>, p: Pid)
    requires Sane(s) && p in some && some <= s.procs.Keys && !Finished(s.procs[p])
    requires forall r :: r in some ==> Do(s, Tick(r)) == s
    requires forall r :: r in s.procs && HoldsSomething(s.procs[r]) ==> r in some
    ensures !NoneCrossed(s)
  {
    if NoneCrossed(s) {
      var q := HolderMoves(s, p);
    }
  }

  lemma DeadlockIsCrossed(s: State, some: set<Pid>)
    requires Sane(s) && Deadlock(s, some)
    ensures !NoneCrossed(s)
  {
    var steps := FailAll(s, s.procs.Keys - some);
    var s' := Exec(s, steps);
    assert forall i :: 0 <= i < |steps| ==> Spares(steps[i], some);
    SomeMember(some);
    var p :| p in some;
    forall r | r in some ensures Do(s', Tick(r)) == s' { assert Do(Exec(s, steps), Tick(r)) == Exec(s, steps); }
    StuckIsCrossed(s', some, p);
    var a, b :| Crossed(s', a, b);
    assert HoldsSomething(s'.procs[a]) && HoldsSomething(s'.procs[b]);
    assert Crossed(s, a, b);
  }

  /** Without overlapping deletes of one node nobody crosses: a blob that has lost its last
      reference is named by no other node. */
  lemma ExactCountsNeverCross(s: State)
    requires Sane(s) && Exact(s) && Alone(s)
    ensures NoneCrossed(s)
  {
    forall p, q
      ensures !Crossed(s, p, q)
    {
      if p in s.procs && q in s.procs && s.procs[p].Delete? && s.procs[q].Delete? && s.procs[p].del.DeleteBlob? {
        var d, e := s.procs[p], s.procs[q];
        assert ProcOk(s, p, d) && ProcOk(s, q, e) && Active(s, p);
        assert d.node in Namers(s.nodes, d.hash);
        OnlyNamer(s.nodes, d.hash, d.node);
        assert e.node in s.nodes && e.hash == d.hash ==> e.node in Namers(s.nodes, d.hash);
      }
    }
  }

  /** In runs without overlapping deletes of one node there is no deadlock, and while a request is
      unfinished some request can run its next statement. */
  lemma NoDeadlock(steps: seq<Step>, p: Pid) returns (q: Pid)
    requires NoOverlap(INIT, steps) && p in Exec(INIT, steps).procs && !Finished(Exec(INIT, steps).procs[p])
    ensures var s := Exec(INIT, steps);
      q in s.procs && Do(s, Tick(q)) != s && forall some :: !Deadlock(s, some)
  {
    var s := Exec(INIT, steps);
    CountsExact(steps);
    ExactCountsNeverCross(s);
    DeadlockExactly(s);
    q := SomeoneMoves(s, p);
  }

  // ----- a deadlock -----

  /** Deletes 6 and 7 of the two nodes of a blob, as far as they get. */
  function CrossingSteps(): seq<Step> {
    [StartDelete(6, 1), StartDelete(7, 2)] + [Tick(6), Tick(7)] + [Tick(6)]
  }

  /** Both deletes authorized, and then both with their node deleted. */
  function Started(s: State, hash: bytes): State {
    s.(procs := s.procs[6 := Delete(1, hash, DeleteNode)][7 := Delete(2, hash, DeleteNode)], born := s.born + {6} + {7})
  }

  function NodesLocked(s: State, hash: bytes): State {
    s.(procs := s.procs[6 := Delete(1, hash, Dereference(true))][7 := Delete(2, hash, Dereference(true))],
       born := s.born + {6} + {7})
  }

  lemma BothStart(s: State, hash: bytes)
    requires 6 !in s.born && 7 !in s.born
    requires 1 in s.nodes && s.nodes[1] == hash && 2 in s.nodes && s.nodes[2] == hash
    ensures Exec(s, [StartDelete(6, 1), StartDelete(7, 2)]) == Started(s, hash)
  {
    ExecTwo(s, StartDelete(6, 1), StartDelete(7, 2));
  }

  lemma BothLockNodes(s: State, hash: bytes)
    requires Idle(s) && 1 in s.nodes && 2 in s.nodes
    ensures Exec(Started(s, hash), [Tick(6), Tick(7)]) == NodesLocked(s, hash)
  {
    var s1 := Started(s, hash);
    ExecTwo(s1, Tick(6), Tick(7));
    assert NodeFree(s, 1) && NodeFree(s, 2);
    assert NodeFree(s1, 1);
    assert NodeFree(Do(s1, Tick(6)), 2);
  }

  lemma LastStep(s: State, hash: bytes)
    requires Idle(s) && hash in s.rows && s.rows[hash].refs == 1
    ensures Crossed(Exec(NodesLocked(s, hash), [Tick(6)]), 6, 7)
  {
    var s2 := NodesLocked(s, hash);
    assert [Tick(6)][..0] == [] && Exec(s2, []) == s2;
    assert Free(s, hash);
    assert Free(s2, hash);
  }

  lemma CrossingRuns(s: State, hash: bytes)
    requires Idle(s) && s.born == {1, 2, 3, 4, 5}
    requires s.nodes == map[1 := hash, 2 := hash] && hash in s.rows && s.rows[hash].refs == 1
    ensures Crossed(Exec(s, CrossingSteps()), 6, 7)
  {
    ExecThree(s, [StartDelete(6, 1), StartDelete(7, 2)], [Tick(6), Tick(7)], [Tick(6)]);
    BothStart(s, hash);
    BothLockNodes(s, hash);
    LastStep(s, hash);
  }

  /** A run from the empty store into a deadlock: after overlapping deletes have left two nodes and
      a count of one, deleting both nodes at once crosses. */
  lemma DeadlockingRun(cargo: Envelope)
    ensures Deadlock(Exec(INIT, MiscountSteps(cargo) + CrossingSteps()), {6, 7})
  {
    MiscountingRun(cargo);
    CrossingRuns(Exec(INIT, MiscountSteps(cargo)), cargo.hash);
    ExecConcat(INIT, MiscountSteps(cargo), CrossingSteps());
    RunSane(INIT, MiscountSteps(cargo) + CrossingSteps());
    CrossedIsDeadlock(Exec(INIT, MiscountSteps(cargo) + CrossingSteps()), 6, 7);
  }
}
