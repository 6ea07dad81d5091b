/** What one upload or one delete does when no other request disturbs it, statement by statement.
    The module Agreement compares it with the transactions of Repository. */
module SoloRuns {
  import opened Prelude
  import opened Storage
  import opened Protocol

  /** The blob row an upload of `cargo` leaves. */
  function RowAfter(s: State, cargo: Envelope): Row {
    if cargo.hash in s.rows then s.rows[cargo.hash].(refs := s.rows[cargo.hash].refs + 1) else Row(cargo.wrappedDek, 1)
  }

  /** The objects an upload of `cargo` leaves: a stored one is kept. */
  function ObjectsAfter(s: State, cargo: Envelope): map<bytes, bytes> {
    if cargo.hash in s.rows then s.objects else s.objects[cargo.hash := cargo.file]
  }

  /** The state `k` statements into an upload. */
  function UploadStage(s: State, p: Pid, cargo: Envelope, k: nat): State {
    var h, row, known := cargo.hash, RowAfter(s, cargo), cargo.hash in s.rows;
    var s0 := s.(temps := s.temps + {p}, born := s.born + {p});
    var s3 := s0.(temps := s0.temps - {p}, objects := ObjectsAfter(s, cargo));
    var s5 := s3.(rows := s.rows[h := row], nodes := s.nodes[p := h]);
    if k == 0 then Goto(s0, p, Upload(cargo, 0, false, Select), Select)
    else if k == 1 then Goto(s0, p, Upload(cargo, 0, false, Select), if known then Update else InsertBlob)
    else if k == 2 then Goto(s0, p, Upload(cargo, 0, false, Select), if known then Discard(row) else Publish(row))
    else if k == 3 then Goto(s3, p, Upload(cargo, 0, true, Select), InsertNode(row))
    else if k == 4 then Goto(s3, p, Upload(cargo, 0, true, Select), CommitUpload(row))
    else if k == 5 then Goto(s5, p, Upload(cargo, 0, true, Select), Cleanup(Ok))
    else Goto(s5, p, Upload(cargo, 0, true, Select), Returned(Ok))
  }

  lemma UploadChecks(s: State, p: Pid, cargo: Envelope)
    requires p !in s.procs && Free(s, cargo.hash)
    ensures Do(UploadStage(s, p, cargo, 0), Tick(p)) == UploadStage(s, p, cargo, 1)
  {
    assert Free(UploadStage(s, p, cargo, 0), cargo.hash);
  }

  lemma UploadWritesBlob(s: State, p: Pid, cargo: Envelope)
    requires p !in s.procs && Free(s, cargo.hash)
    ensures Do(UploadStage(s, p, cargo, 1), Tick(p)) == UploadStage(s, p, cargo, 2)
  {
    assert cargo.hash !in s.rows ==> Free(UploadStage(s, p, cargo, 1), cargo.hash);
  }

  lemma UploadFinalizes(s: State, p: Pid, cargo: Envelope)
    ensures Do(UploadStage(s, p, cargo, 2), Tick(p)) == UploadStage(s, p, cargo, 3)
  {
  }

  lemma UploadCommits(s: State, p: Pid, cargo: Envelope)
    ensures Do(UploadStage(s, p, cargo, 3), Tick(p)) == UploadStage(s, p, cargo, 4)
    ensures Do(UploadStage(s, p, cargo, 4), Tick(p)) == UploadStage(s, p, cargo, 5)
  {
  }

  lemma UploadReturns(s: State, p: Pid, cargo: Envelope)
    ensures Do(UploadStage(s, p, cargo, 5), Tick(p)) == UploadStage(s, p, cargo, 6)
  {
    var s5 := UploadStage(s, p, cargo, 5);
    assert s5.temps - {p} == s5.temps;
  }

  lemma UploadStep(s: State, p: Pid, cargo: Envelope, k: nat)
    requires p !in s.procs && Free(s, cargo.hash) && k < 6
    ensures Do(UploadStage(s, p, cargo, k), Tick(p)) == UploadStage(s, p, cargo, k + 1)
  {
    if k == 0 {
      UploadChecks(s, p, cargo);
    } else if k == 1 {
      UploadWritesBlob(s, p, cargo);
    } else if k == 2 {
      UploadFinalizes(s, p, cargo);
    } else if k <= 4 {
      UploadCommits(s, p, cargo);
    } else {
      UploadReturns(s, p, cargo);
    }
  }

  lemma UploadRuns(s: State, p: Pid, cargo: Envelope)
    requires p !in s.born && p !in s.procs && Free(s, cargo.hash)
    ensures Exec(s, [StartUpload(p, cargo)] + Ticks(p, 6)) == UploadStage(s, p, cargo, 6)
  {
    var stage := (j: nat) => UploadStage(s, p, cargo, j);
    forall j: nat | j < 6
      ensures Do(stage(j), Tick(p)) == stage(j + 1)
    {
      UploadStep(s, p, cargo, j);
    }
    StartThenTicks(s, StartUpload(p, cargo), p, 6);
    Undisturbed(p, stage, 6);
  }

  /** The state an undisturbed upload leaves. */
  function Uploaded(s: State, p: Pid, cargo: Envelope): State {
    s.(rows := s.rows[cargo.hash := RowAfter(s, cargo)], nodes := s.nodes[p := cargo.hash],
       objects := ObjectsAfter(s, cargo), born := s.born + {p},
       procs := s.procs[p := Upload(cargo, 0, true, Returned(Ok))])
  }

  function UploadSteps(p: Pid, cargo: Envelope): seq<Step> {
    [StartUpload(p, cargo)] + Ticks(p, 6)
  }

  /** An undisturbed upload succeeds: one more reference to a known content, whose object and key
      are kept, or the first one with the new object; one node; no temporary file. */
  lemma UploadAlone(s: State, p: Pid, cargo: Envelope)
    requires Sane(s) && p !in s.born && p !in s.procs && Free(s, cargo.hash)
    ensures Exec(s, UploadSteps(p, cargo)) == Uploaded(s, p, cargo)
  {
    UploadRuns(s, p, cargo);
    assert p !in s.temps;
    assert s.temps + {p} - {p} == s.temps;
  }

  /** The last reference goes. */
  predicate Last(s: State, d: Pid)
    requires d in s.procs && s.procs[d].Delete? && s.procs[d].hash in s.rows
  {
    s.rows[s.procs[d].hash].refs == 1
  }

  /** The state after the commit of delete `d`. */
  function Committed(s: State, d: Pid): State
    requires d in s.procs && s.procs[d].Delete? && s.procs[d].hash in s.rows
  {
    var c := s.procs[d];
    var row := s.rows[c.hash].(refs := s.rows[c.hash].refs - 1);
    var s' := s.(rows := if Last(s, d) then s.rows - {c.hash} else s.rows[c.hash := row], nodes := s.nodes - {c.node});
    GotoDelete(s', d, c, if Last(s, d) then Unlink else Deleted)
  }

  /** The state `k` statements into delete `d`; the commit is the third statement, or the fourth
      when the blob row goes too. */
  function DeleteStage(s: State, d: Pid, k: nat): State
    requires d in s.procs && s.procs[d].Delete? && s.procs[d].hash in s.rows
  {
    var c := s.procs[d];
    var row, removed := s.rows[c.hash].(refs := s.rows[c.hash].refs - 1), c.node in s.nodes;
    if k == 0 then s
    else if k == 1 then GotoDelete(s, d, c, Dereference(removed))
    else if k == 2 then GotoDelete(s, d, c, if Last(s, d) then DeleteBlob(removed, row) else CommitDelete(removed, row))
    else if k == 3 && Last(s, d) then GotoDelete(s, d, c, CommitDelete(removed, row))
    else Committed(s, d)
  }

  ghost predicate Undisturbable(s: State, d: Pid) {
    && d in s.procs && s.procs[d].Delete? && s.procs[d].del == DeleteNode
    && NodeFree(s, s.procs[d].node) && Free(s, s.procs[d].hash)
    && s.procs[d].hash in s.rows && s.rows[s.procs[d].hash].refs >= 1
    && (Last(s, d) ==> !StillNamed(s, s.procs[d].hash, s.procs[d].node in s.nodes, s.procs[d].node))
  }

  /** How many statements up to the commit. */
  function CommitAt(s: State, d: Pid): nat
    requires d in s.procs && s.procs[d].Delete? && s.procs[d].hash in s.rows
  {
    if Last(s, d) then 4 else 3
  }

  lemma DeleteFirstTwo(s: State, d: Pid)
    requires Undisturbable(s, d)
    ensures Do(DeleteStage(s, d, 0), Tick(d)) == DeleteStage(s, d, 1)
    ensures Do(DeleteStage(s, d, 1), Tick(d)) == DeleteStage(s, d, 2)
  {
    assert Free(DeleteStage(s, d, 1), s.procs[d].hash);
  }

  lemma DeleteLastTwo(s: State, d: Pid)
    requires Undisturbable(s, d)
    ensures Do(DeleteStage(s, d, 2), Tick(d)) == DeleteStage(s, d, 3)
    ensures Last(s, d) ==> Do(DeleteStage(s, d, 3), Tick(d)) == DeleteStage(s, d, 4)
  {
    var c := s.procs[d];
    if c.node !in s.nodes { assert s.nodes - {c.node} == s.nodes; }
  }

  lemma DeleteStep(s: State, d: Pid, k: nat)
    requires Undisturbable(s, d) && k < CommitAt(s, d)
    ensures Do(DeleteStage(s, d, k), Tick(d)) == DeleteStage(s, d, k + 1)
  {
    if k < 2 { DeleteFirstTwo(s, d); } else { DeleteLastTwo(s, d); }
  }

  /** An undisturbed delete commits: node gone, count down, the blob row with the last one. */
  lemma DeleteCommits(s: State, d: Pid)
    requires Undisturbable(s, d)
    ensures Exec(s, Ticks(d, CommitAt(s, d))) == Committed(s, d)
  {
    var stage := (j: nat) => DeleteStage(s, d, j);
    forall j: nat | j < CommitAt(s, d)
      ensures Do(stage(j), Tick(d)) == stage(j + 1)
    {
      DeleteStep(s, d, j);
    }
    Undisturbed(d, stage, CommitAt(s, d));
    assert stage(0) == s && stage(CommitAt(s, d)) == Committed(s, d);
  }

  /** The state after the statement that follows the commit. */
  function AfterDelete(s: State, d: Pid): State
    requires d in s.procs && s.procs[d].Delete? && s.procs[d].hash in s.rows
  {
    var s' := Committed(s, d);
    if Last(s, d) then GotoDelete(s'.(objects := s.objects - {s.procs[d].hash}), d, s.procs[d], Deleted) else s'
  }

  lemma DeleteFinishes(s: State, d: Pid)
    requires d in s.procs && s.procs[d].Delete? && s.procs[d].hash in s.rows
    ensures Do(Committed(s, d), Tick(d)) == AfterDelete(s, d)
  {
  }

  /** And with the last reference goes the object, in the statement after the commit. */
  lemma DeleteAlone(s: State, d: Pid)
    requires Undisturbable(s, d)
    ensures Exec(s, Ticks(d, CommitAt(s, d) + 1)) == AfterDelete(s, d)
  {
    DeleteCommits(s, d);
    OneMoreTick(s, d, CommitAt(s, d));
    DeleteFinishes(s, d);
  }
}
