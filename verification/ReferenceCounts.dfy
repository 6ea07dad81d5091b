/** The reference counts of blobs under concurrent uploads and deletes. */
module ReferenceCounts {
  import opened Prelude
  import opened Storage
  import opened Protocol
  import opened SoloRuns

  function Namers(nodes: map<Pid, bytes>, hash: bytes): set<Pid> {
    set n | n in nodes && nodes[n] == hash
  }

  /** Every node has its blob row, and the count of a row is positive and at most the number of
      nodes that name it. */
  ghost predicate Bounded(s: State) {
    && (forall n :: n in s.nodes ==> s.nodes[n] in s.rows)
    && (forall h :: h in s.rows ==> 1 <= s.rows[h].refs <= |Namers(s.nodes, h)|)
  }

  ghost predicate Exact(s: State) {
    && (forall n :: n in s.nodes ==> s.nodes[n] in s.rows)
    && (forall h :: h in s.rows ==> 1 <= s.rows[h].refs == |Namers(s.nodes, h)|)
  }

  lemma NamersWith(nodes: map<Pid, bytes>, p: Pid, hash: bytes)
    requires p !in nodes
    ensures |Namers(nodes[p := hash], hash)| == |Namers(nodes, hash)| + 1
    ensures forall h :: h != hash ==> Namers(nodes[p := hash], h) == Namers(nodes, h)
  {
    assert Namers(nodes[p := hash], hash) == Namers(nodes, hash) + {p};
  }

  lemma NamersWithout(nodes: map<Pid, bytes>, n: Pid)
    requires n in nodes
    ensures |Namers(nodes - {n}, nodes[n])| == |Namers(nodes, nodes[n])| - 1
    ensures forall h :: h != nodes[n] ==> Namers(nodes - {n}, h) == Namers(nodes, h)
  {
    assert Namers(nodes - {n}, nodes[n]) == Namers(nodes, nodes[n]) - {n};
    forall h | h != nodes[n]
      ensures Namers(nodes - {n}, h) == Namers(nodes, h)
    {
    }
  }

  lemma NamedExactlyWithRow(s: State, hash: bytes)
    requires Exact(s)
    ensures hash in s.rows <==> Namers(s.nodes, hash) != {}
  {
    if hash in s.rows {
      assert |Namers(s.nodes, hash)| >= 1;
    } else {
      forall n | n in s.nodes
        ensures s.nodes[n] != hash
      {
        assert s.nodes[n] in s.rows;
      }
    }
  }

  /** What a commit of an upload does to the counts. */
  lemma CommitUploadCounts(s: State, p: Pid)
    requires Sane(s) && p in s.procs && s.procs[p].Upload? && s.procs[p].up.CommitUpload?
    ensures Bounded(s) ==> Bounded(TickUpload(s, p, s.procs[p]))
    ensures Exact(s) ==> Exact(TickUpload(s, p, s.procs[p]))
  {
    var u := s.procs[p];
    assert ProcOk(s, p, u);
    NamersWith(s.nodes, p, u.cargo.hash);
    if Exact(s) { NamedExactlyWithRow(s, u.cargo.hash); }
  }

  /** What a commit of a delete does to the counts: exact ones stay exact just when the
      transaction removed a node. */
  lemma CommitDeleteCounts(s: State, p: Pid)
    requires Sane(s) && p in s.procs && s.procs[p].Delete? && s.procs[p].del.CommitDelete?
    ensures Bounded(s) ==> Bounded(TickDelete(s, p, s.procs[p]))
    ensures Exact(s) ==> (Exact(TickDelete(s, p, s.procs[p])) <==> s.procs[p].del.removed)
  {
    var d := s.procs[p];
    var s' := TickDelete(s, p, d);
    var removed, row := d.del.removed, d.del.row;
    assert ProcOk(s, p, d);
    if removed { NamersWithout(s.nodes, d.node); }
    if row.refs == 0 && (Bounded(s) || Exact(s)) {
      forall n | n in s'.nodes
        ensures s'.nodes[n] != d.hash
      {
        assert !StillNamed(s, d.hash, removed, d.node);
      }
    }
  }

  /** Only commits change rows and nodes. */
  predicate Commits(s: State, step: Step) {
    step.Tick? && step.p in s.procs &&
    match s.procs[step.p]
    case Upload(_, _, _, up) => up.CommitUpload?
    case Delete(_, _, del) => del.CommitDelete?
  }

  lemma TablesChangeAtCommit(s: State, step: Step)
    requires !Commits(s, step)
    ensures Do(s, step).rows == s.rows && Do(s, step).nodes == s.nodes
  {
  }

  /** Whatever overlaps, crashes or fails: every node keeps its blob row, and no row's count
      exceeds the number of its nodes or drops to zero. */
  lemma {:induction false} CountsBounded(steps: seq<Step>)
    ensures Sane(Exec(INIT, steps)) && Bounded(Exec(INIT, steps))
  {
    if steps == [] {
    } else {
      var init, last := steps[..|steps| - 1], steps[|steps| - 1];
      CountsBounded(init);
      var s := Exec(INIT, init);
      StepSane(s, last);
      if !Commits(s, last) {
        TablesChangeAtCommit(s, last);
      } else if s.procs[last.p].Upload? {
        CommitUploadCounts(s, last.p);
      } else {
        CommitDeleteCounts(s, last.p);
      }
    }
  }

  // ----- exact counts -----

  /** A delete between its authorization and the end of its transaction. */
  predicate Active(s: State, p: Pid) {
    p in s.procs && s.procs[p].Delete? &&
    !s.procs[p].del.Unlink? && !s.procs[p].del.Deleted? && !s.procs[p].del.Failed?
  }

  /** A delete of a node is authorized while another one of that node is active. */
  ghost predicate Overlaps(s: State, step: Step) {
    step.StartDelete? && exists q :: Active(s, q) && s.procs[q].node == step.node
  }

  ghost predicate NoOverlap(s: State, steps: seq<Step>) {
    steps == [] ||
    var init, last := steps[..|steps| - 1], steps[|steps| - 1];
    NoOverlap(s, init) && !Overlaps(Exec(s, init), last)
  }

  /** Active deletes are of different nodes, and each has its node until it commits. */
  ghost predicate Alone(s: State) {
    && (forall p :: Active(s, p) ==> s.procs[p].node in s.nodes && Removed(s.procs[p]))
    && (forall p, q :: Active(s, p) && Active(s, q) && s.procs[p].node == s.procs[q].node ==> p == q)
  }

  predicate Removed(d: Proc)
    requires d.Delete?
  {
    d.del.Dereference? || d.del.DeleteBlob? || d.del.CommitDelete? ==> d.del.removed
  }

  lemma UploadKeepsAlone(s: State, p: Pid)
    requires Sane(s) && Alone(s) && p in s.procs && s.procs[p].Upload?
    ensures Alone(TickUpload(s, p, s.procs[p]))
  {
    var s' := TickUpload(s, p, s.procs[p]);
    assert s'.procs == s.procs[p := s'.procs[p]] && s'.procs[p].Upload?;
    assert forall n :: n in s.nodes ==> n in s'.nodes;
    assert forall q :: Active(s', q) ==> Active(s, q) && s'.procs[q] == s.procs[q];
  }

  lemma DeleteKeepsAlone(s: State, p: Pid)
    requires Sane(s) && Alone(s) && p in s.procs && s.procs[p].Delete?
    ensures Alone(TickDelete(s, p, s.procs[p]))
  {
    var s' := TickDelete(s, p, s.procs[p]);
    assert ProcOk(s, p, s.procs[p]);
    assert s'.procs == s.procs[p := s'.procs[p]] && s'.procs[p].Delete? && s'.procs[p].node == s.procs[p].node;
    assert Active(s', p) ==> Active(s, p) && s'.nodes == s.nodes;
    assert forall q :: Active(s', q) ==> Active(s, q);
    forall q | Active(s', q)
      ensures s'.procs[q].node in s'.nodes && Removed(s'.procs[q])
    {
      if q != p && !Active(s, p) {
        assert s'.nodes == s.nodes;
      }
    }
  }

  lemma StartedAlone(s: State, p: Pid, node: Pid)
    requires Sane(s) && Alone(s) && p !in s.born && node in s.nodes && !Overlaps(s, StartDelete(p, node))
    ensures Alone(Do(s, StartDelete(p, node)))
  {
    var s' := Do(s, StartDelete(p, node));
    assert s'.procs == s.procs[p := Delete(node, s.nodes[node], DeleteNode)];
    assert forall q :: Active(s', q) && q != p ==> Active(s, q) && s'.procs[q] == s.procs[q];
  }

  lemma FailKeepsAlone(s: State, p: Pid)
    requires Sane(s) && Alone(s) && p in s.procs
    ensures Alone(FailProc(s, p, s.procs[p]))
  {
    var s' := FailProc(s, p, s.procs[p]);
    match s.procs[p]
    case Upload(_, _, _, _) =>
      assert s'.nodes == s.nodes && (s' == s || s'.procs == s.procs[p := s'.procs[p]]) && s'.procs[p].Upload?;
      assert forall q :: Active(s', q) ==> Active(s, q) && s'.procs[q] == s.procs[q];
    case Delete(_, _, _) =>
      assert !Active(s', p);
      assert forall q :: Active(s', q) ==> Active(s, q) && s'.procs[q] == s.procs[q];
  }

  lemma StartKeepsAlone(s: State, step: Step)
    requires Sane(s) && Alone(s) && !Overlaps(s, step) && !step.Tick?
    ensures Alone(Do(s, step))
  {
    match step
    case StartUpload(p, cargo) =>
      var s' := Do(s, step);
      if p in s.procs { assert ProcOk(s, p, s.procs[p]); }
      assert forall q :: Active(s', q) ==> Active(s, q) && s'.procs[q] == s.procs[q];
    case StartDelete(p, node) => if p !in s.born && node in s.nodes { StartedAlone(s, p, node); }
    case Fail(p) => if p in s.procs { FailKeepsAlone(s, p); }
    case Crash =>
  }

  lemma StepAlone(s: State, step: Step)
    requires Sane(s) && Alone(s) && !Overlaps(s, step)
    ensures Alone(Do(s, step))
  {
    if !step.Tick? {
      StartKeepsAlone(s, step);
    } else if step.p in s.procs {
      if s.procs[step.p].Upload? { UploadKeepsAlone(s, step.p); } else { DeleteKeepsAlone(s, step.p); }
    }
  }

  /** When no two deletes of one node overlap, the count of every blob row is the number of nodes
      that name it, and the row exists exactly when some node does. */
  lemma {:induction false} CountsExact(steps: seq<Step>)
    requires NoOverlap(INIT, steps)
    ensures var s := Exec(INIT, steps);
      && Sane(s) && Exact(s) && Alone(s)
      && forall h :: h in s.rows <==> Namers(s.nodes, h) != {}
  {
    var s := Exec(INIT, steps);
    if steps == [] {
    } else {
      var init, last := steps[..|steps| - 1], steps[|steps| - 1];
      CountsExact(init);
      var before := Exec(INIT, init);
      StepSane(before, last);
      StepAlone(before, last);
      if !Commits(before, last) {
        TablesChangeAtCommit(before, last);
      } else if before.procs[last.p].Upload? {
        CommitUploadCounts(before, last.p);
      } else {
        CommitDeleteCounts(before, last.p);
      }
    }
    forall h
      ensures h in s.rows <==> Namers(s.nodes, h) != {}
    {
      NamedExactlyWithRow(s, h);
    }
  }

  /** The database rejects the next statement of delete `p`. */
  predicate RejectsNext(s: State, p: Pid)
    requires p in s.procs && s.procs[p].Delete?
  {
    var s' := TickDelete(s, p, s.procs[p]);
    p in s'.procs && s'.procs[p].Delete? && s'.procs[p].del == Failed && s.procs[p].del != Failed
  }

  lemma DeleteIsAccepted(s: State, p: Pid)
    requires Sane(s) && Exact(s) && Alone(s) && Active(s, p)
    ensures !RejectsNext(s, p)
  {
    var d := s.procs[p];
    assert ProcOk(s, p, d);
    assert d.node in Namers(s.nodes, d.hash);
    if d.del.DeleteBlob? {
      OnlyNamer(s.nodes, d.hash, d.node);
      forall n | n in s.nodes && s.nodes[n] == d.hash
        ensures n == d.node
      {
        assert n in Namers(s.nodes, d.hash);
      }
    }
  }

  /** In such runs the database rejects nothing: a delete meets no negative count, no missing row
      and no foreign key, so only an injected error makes it fail. */
  lemma NothingRejected(steps: seq<Step>, p: Pid)
    requires NoOverlap(INIT, steps)
    ensures var s := Exec(INIT, steps);
      p in s.procs && s.procs[p].Delete? ==> !RejectsNext(s, p)
  {
    CountsExact(steps);
    var s := Exec(INIT, steps);
    if Active(s, p) { DeleteIsAccepted(s, p); }
  }

  lemma OnlyNamer(nodes: map<Pid, bytes>, hash: bytes, n: Pid)
    requires n in Namers(nodes, hash) && |Namers(nodes, hash)| == 1
    ensures Namers(nodes, hash) == {n}
  {
    assert |Namers(nodes, hash) - {n}| == 0;
  }

  /** Nobody holds a lock. */
  ghost predicate Idle(s: State) {
    (forall h :: Free(s, h)) && (forall n :: NodeFree(s, n))
  }

  lemma BothAuthorized(s: State, n: Pid, d1: Pid, d2: Pid)
    requires n in s.nodes && d1 != d2 && d1 !in s.born && d2 !in s.born
    ensures var d := Delete(n, s.nodes[n], DeleteNode);
      Exec(s, [StartDelete(d1, n), StartDelete(d2, n)])
      == s.(procs := s.procs[d1 := d][d2 := d], born := s.born + {d1, d2})
  {
    ExecTwo(s, StartDelete(d1, n), StartDelete(d2, n));
    assert s.born + {d1} + {d2} == s.born + {d1, d2};
  }

  /** A delete that runs its transaction undisturbed, with other references left. */
  lemma OneCommits(s: State, d: Pid)
    requires Idle(s) && d in s.procs && s.procs[d].Delete? && s.procs[d].del == DeleteNode
    requires s.procs[d].hash in s.rows && s.rows[s.procs[d].hash].refs >= 2
    ensures Exec(s, Ticks(d, 3)) == Committed(s, d) && Idle(Committed(s, d))
  {
    assert Free(s, s.procs[d].hash) && NodeFree(s, s.procs[d].node);
    DeleteCommits(s, d);
    var s' := Committed(s, d);
    forall h ensures Free(s', h) { assert Free(s, h); }
    forall n ensures NodeFree(s', n) { assert NodeFree(s, n); }
  }

  /** Two authorized deletes of one node. */
  predicate BothReady(s: State, n: Pid, d1: Pid, d2: Pid) {
    && d1 != d2 && d1 in s.procs && d2 in s.procs && n in s.nodes
    && s.procs[d1] == s.procs[d2] == Delete(n, s.nodes[n], DeleteNode)
    && s.nodes[n] in s.rows && s.rows[s.nodes[n]].refs >= 3
  }

  lemma BothCommit(s: State, n: Pid, d1: Pid, d2: Pid)
    requires Idle(s) && BothReady(s, n, d1, d2)
    ensures Exec(Exec(s, Ticks(d1, 3)), Ticks(d2, 3)) == Committed(Committed(s, d1), d2)
    ensures Idle(Committed(Committed(s, d1), d2))
  {
    OneCommits(s, d1);
    var s3 := Committed(s, d1);
    assert s3.procs[d2] == s.procs[d2] && s3.rows[s.nodes[n]].refs >= 2;
    OneCommits(s3, d2);
  }

  lemma CommittedTwice(s: State, n: Pid, d1: Pid, d2: Pid)
    requires BothReady(s, n, d1, d2)
    ensures var s', h := Committed(Committed(s, d1), d2), s.nodes[n];
      && s'.born == s.born && s'.nodes == s.nodes - {n}
      && s'.rows == s.rows[h := s.rows[h].(refs := s.rows[h].refs - 2)]
      && s'.procs == s.procs[d1 := Delete(n, h, Deleted)][d2 := Delete(n, h, Deleted)]
  {
    assert s.nodes - {n} - {n} == s.nodes - {n};
  }

  lemma IdleAfterStart(s: State, d1: Pid, d2: Pid, d: Proc)
    requires Idle(s) && d.Delete? && d.del == DeleteNode
    ensures Idle(s.(procs := s.procs[d1 := d][d2 := d], born := s.born + {d1, d2}))
  {
    var s' := s.(procs := s.procs[d1 := d][d2 := d], born := s.born + {d1, d2});
    forall h ensures Free(s', h) { assert Free(s, h); }
    forall n ensures NodeFree(s', n) { assert NodeFree(s, n); }
  }

  /** Two deletes of node `n` that overlap. */
  function OverlapSteps(n: Pid, d1: Pid, d2: Pid): seq<Step> {
    [StartDelete(d1, n), StartDelete(d2, n)] + Ticks(d1, 3) + Ticks(d2, 3)
  }

  /** The tables after both have committed. */
  ghost predicate CountedTwice(s: State, s': State, n: Pid, d1: Pid, d2: Pid)
    requires n in s.nodes && s.nodes[n] in s.rows
  {
    var h := s.nodes[n];
    && Idle(s') && s'.born == s.born + {d1, d2} && s'.nodes == s.nodes - {n}
    && s'.rows == s.rows[h := s.rows[h].(refs := s.rows[h].refs - 2)]
    && s'.procs == s.procs[d1 := Delete(n, h, Deleted)][d2 := Delete(n, h, Deleted)]
  }

  function BothStarted(s: State, n: Pid, d1: Pid, d2: Pid): State
    requires n in s.nodes
  {
    var d := Delete(n, s.nodes[n], DeleteNode);
    s.(procs := s.procs[d1 := d][d2 := d], born := s.born + {d1, d2})
  }

  lemma OverlapRuns(s: State, n: Pid, d1: Pid, d2: Pid)
    requires Idle(s) && n in s.nodes && s.nodes[n] in s.rows && s.rows[s.nodes[n]].refs >= 3
    requires d1 != d2 && d1 !in s.born && d2 !in s.born
    ensures var s0 := BothStarted(s, n, d1, d2);
      && BothReady(s0, n, d1, d2)
      && Exec(s, OverlapSteps(n, d1, d2)) == Committed(Committed(s0, d1), d2) && Idle(Committed(Committed(s0, d1), d2))
  {
    ExecThree(s, [StartDelete(d1, n), StartDelete(d2, n)], Ticks(d1, 3), Ticks(d2, 3));
    BothAuthorized(s, n, d1, d2);
    IdleAfterStart(s, d1, d2, Delete(n, s.nodes[n], DeleteNode));
    BothCommit(BothStarted(s, n, d1, d2), n, d1, d2);
  }

  lemma OverlapCountsTwice(s: State, n: Pid, d1: Pid, d2: Pid)
    requires Idle(s) && n in s.nodes && s.nodes[n] in s.rows && s.rows[s.nodes[n]].refs >= 3
    requires d1 != d2 && d1 !in s.born && d2 !in s.born
    ensures CountedTwice(s, Exec(s, OverlapSteps(n, d1, d2)), n, d1, d2)
  {
    OverlapRuns(s, n, d1, d2);
    CommittedTwice(BothStarted(s, n, d1, d2), n, d1, d2);
  }

  /** Without the hypothesis the counts go wrong: two deletes of one node, both authorized before
      either commits, count it twice. */
  lemma OverlapMiscounts(s: State, n: Pid, d1: Pid, d2: Pid)
    requires Exact(s) && Idle(s) && n in s.nodes && s.rows[s.nodes[n]].refs >= 3
    requires d1 != d2 && d1 !in s.born && d2 !in s.born
    ensures var s', h := Exec(s, OverlapSteps(n, d1, d2)), s.nodes[n];
      CountedTwice(s, s', n, d1, d2) && s'.rows[h].refs == |Namers(s'.nodes, h)| - 1
  {
    OverlapCountsTwice(s, n, d1, d2);
    NamersWithout(s.nodes, n);
  }

  lemma OneMoreUpload(s: State, p: Pid, cargo: Envelope)
    requires Sane(s) && Idle(s) && p !in s.born && s.procs.Keys <= s.born
    ensures Exec(s, UploadSteps(p, cargo)) == Uploaded(s, p, cargo)
    ensures Sane(Uploaded(s, p, cargo)) && Idle(Uploaded(s, p, cargo))
  {
    assert Free(s, cargo.hash);
    UploadAlone(s, p, cargo);
    RunSane(s, UploadSteps(p, cargo));
    var s' := Uploaded(s, p, cargo);
    forall h ensures Free(s', h) { assert Free(s, h); }
    forall n ensures NodeFree(s', n) { assert NodeFree(s, n); }
  }

  /** The state after three uploads of one content into the empty store. */
  function Thrice(cargo: Envelope): State {
    Uploaded(Uploaded(Uploaded(INIT, 1, cargo), 2, cargo), 3, cargo)
  }

  function ThreeUploads(cargo: Envelope): seq<Step> {
    UploadSteps(1, cargo) + UploadSteps(2, cargo) + UploadSteps(3, cargo)
  }

  lemma ThreeUploadsDone(cargo: Envelope)
    ensures Exec(INIT, ThreeUploads(cargo)) == Thrice(cargo) && Sane(Thrice(cargo)) && Idle(Thrice(cargo))
  {
    ExecThree(INIT, UploadSteps(1, cargo), UploadSteps(2, cargo), UploadSteps(3, cargo));
    OneMoreUpload(INIT, 1, cargo);
    OneMoreUpload(Uploaded(INIT, 1, cargo), 2, cargo);
    OneMoreUpload(Uploaded(Uploaded(INIT, 1, cargo), 2, cargo), 3, cargo);
  }

  lemma ThriceIs(cargo: Envelope)
    ensures var s := Thrice(cargo);
      && s.born == {1, 2, 3} && s.procs.Keys == {1, 2, 3}
      && s.rows == map[cargo.hash := Row(cargo.wrappedDek, 3)]
      && s.nodes == map[1 := cargo.hash, 2 := cargo.hash, 3 := cargo.hash]
  {
  }

  /** A content is uploaded three times, and one of the nodes deleted twice at once. */
  function MiscountSteps(cargo: Envelope): seq<Step> {
    ThreeUploads(cargo) + OverlapSteps(3, 4, 5)
  }

  /** Two nodes, and a count of one. */
  ghost predicate Miscounted(s: State, cargo: Envelope) {
    && Idle(s) && s.born == {1, 2, 3, 4, 5} && s.procs.Keys == {1, 2, 3, 4, 5}
    && s.rows == map[cargo.hash := Row(cargo.wrappedDek, 1)]
    && s.nodes == map[1 := cargo.hash, 2 := cargo.hash]
    && s.rows[cargo.hash].refs == |Namers(s.nodes, cargo.hash)| - 1
  }

  lemma ThriceWithout(s: State, s': State, cargo: Envelope)
    requires s.born == {1, 2, 3} && s.procs.Keys == {1, 2, 3}
    requires s.rows == map[cargo.hash := Row(cargo.wrappedDek, 3)]
    requires s.nodes == map[1 := cargo.hash, 2 := cargo.hash, 3 := cargo.hash]
    requires CountedTwice(s, s', 3, 4, 5)
    ensures Miscounted(s', cargo)
  {
    TwoNamers(s'.nodes, cargo.hash);
  }

  /** A run from the empty store that leaves two nodes and a count of one. */
  lemma MiscountingRun(cargo: Envelope)
    ensures Miscounted(Exec(INIT, MiscountSteps(cargo)), cargo)
  {
    ThreeUploadsDone(cargo);
    ThriceIs(cargo);
    OverlapCountsTwice(Thrice(cargo), 3, 4, 5);
    ExecConcat(INIT, ThreeUploads(cargo), OverlapSteps(3, 4, 5));
    ThriceWithout(Thrice(cargo), Exec(INIT, MiscountSteps(cargo)), cargo);
  }

  lemma TwoNamers(nodes: map<Pid, bytes>, hash: bytes)
    requires nodes == map[1 := hash, 2 := hash]
    ensures |Namers(nodes, hash)| == 2
  {
    assert Namers(nodes, hash) == {1, 2};
  }
}
