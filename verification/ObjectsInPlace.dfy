/** Every committed blob row has its object on disk: the promise of the two-phase upload, over every
    interleaving of uploads and deletes, and exactly what a delete's late unlink does to it. */
module ObjectsInPlace {
  import opened Prelude
  import opened Crypto
  import opened Storage
  import opened Protocol
  import opened SoloRuns

  /** file, address, wrapped key: the object opens. */
  type Opener = (bytes, bytes, bytes) -> bool

  ghost predicate RowsOpen(opens: Opener, s: State) {
    forall h :: h in s.rows ==> h in s.objects && opens(s.objects[h], h, s.rows[h].wrappedDek)
  }

  /** The upload has published its object and not committed its rows. */
  predicate InFlight(q: Proc, hash: bytes) {
    q.Upload? && q.cargo.hash == hash && (q.up.InsertNode? || q.up.CommitUpload?)
  }

  /** The blob has a row, or an upload past its rename is about to commit one. */
  ghost predicate Occupied(s: State, hash: bytes) {
    hash in s.rows || exists q :: q in s.procs && InFlight(s.procs[q], hash)
  }

  predicate Unlinking(s: State, p: Pid) {
    p in s.procs && s.procs[p].Delete? && s.procs[p].del.Unlink?
  }

  /** A delete unlinks the object of a blob that came back after its own commit. */
  ghost predicate LateUnlink(s: State, step: Step) {
    step.Tick? && Unlinking(s, step.p) && Occupied(s, s.procs[step.p].hash)
  }

  ghost predicate NoLateUnlink(s: State, steps: seq<Step>) {
    steps == [] ||
    var init, last := steps[..|steps| - 1], steps[|steps| - 1];
    NoLateUnlink(s, init) && !LateUnlink(Exec(s, init), last)
  }

  /** Staged content opens under its own key. */
  ghost predicate Sealed(opens: Opener, steps: seq<Step>) {
    forall i :: 0 <= i < |steps| && steps[i].StartUpload? ==> SealedCargo(opens, steps[i].cargo)
  }

  ghost predicate SealedCargo(opens: Opener, cargo: Envelope) {
    opens(cargo.file, cargo.hash, cargo.wrappedDek)
  }

  ghost predicate InPlace(opens: Opener, s: State) {
    && Sane(s) && RowsOpen(opens, s)
    && forall q :: q in s.procs && s.procs[q].Upload? ==> PlacedUpload(opens, s, s.procs[q])
  }

  ghost predicate PlacedUpload(opens: Opener, s: State, u: Proc)
    requires u.Upload?
  {
    var h := u.cargo.hash;
    && SealedCargo(opens, u.cargo)
    && (InFlight(u, h) ==> h in s.objects && opens(s.objects[h], h, u.up.row.wrappedDek))
  }

  /** A step that changes rows or objects of blobs it has locked only leaves the other uploads placed. */
  lemma OthersStayPlaced(opens: Opener, s: State, s': State, p: Pid)
    requires InPlace(opens, s) && Sane(s') && p in s.procs && p in s'.procs
    requires s'.procs == s.procs[p := s'.procs[p]]
    requires RowsOpen(opens, s')
    requires forall h :: !Holds(s.procs[p], h) ==> (h in s.objects ==> h in s'.objects && s'.objects[h] == s.objects[h])
    requires s'.procs[p].Upload? ==> PlacedUpload(opens, s', s'.procs[p])
    ensures InPlace(opens, s')
  {
    forall q | q in s'.procs && s'.procs[q].Upload?
      ensures PlacedUpload(opens, s', s'.procs[q])
    {
      if q != p {
        assert PlacedUpload(opens, s, s.procs[q]);
        var h := s.procs[q].cargo.hash;
        assert InFlight(s.procs[q], h) ==> Holds(s.procs[q], h) && !Holds(s.procs[p], h);
      }
    }
  }

  lemma TickUploadInPlace(opens: Opener, s: State, p: Pid)
    requires InPlace(opens, s) && p in s.procs && s.procs[p].Upload?
    ensures InPlace(opens, TickUpload(s, p, s.procs[p]))
  {
    TickUploadSane(s, p);
    var u := s.procs[p];
    var s' := TickUpload(s, p, u);
    assert ProcOk(s, p, u) && PlacedUpload(opens, s, u);
    if s' != s {
      OthersStayPlaced(opens, s, s', p);
    }
  }

  lemma UnlinkInPlace(opens: Opener, s: State, p: Pid)
    requires InPlace(opens, s) && Unlinking(s, p) && !Occupied(s, s.procs[p].hash)
    ensures InPlace(opens, TickDelete(s, p, s.procs[p]))
  {
    TickDeleteSane(s, p);
    var s' := TickDelete(s, p, s.procs[p]);
    forall q | q in s'.procs && s'.procs[q].Upload?
      ensures PlacedUpload(opens, s', s'.procs[q])
    {
      assert PlacedUpload(opens, s, s.procs[q]);
    }
  }

  lemma TickDeleteInPlace(opens: Opener, s: State, p: Pid)
    requires InPlace(opens, s) && p in s.procs && s.procs[p].Delete?
    requires Unlinking(s, p) ==> !Occupied(s, s.procs[p].hash)
    ensures InPlace(opens, TickDelete(s, p, s.procs[p]))
  {
    if Unlinking(s, p) {
      UnlinkInPlace(opens, s, p);
    } else {
      TickDeleteSane(s, p);
      var s' := TickDelete(s, p, s.procs[p]);
      assert ProcOk(s, p, s.procs[p]);
      if s' != s {
        OthersStayPlaced(opens, s, s', p);
      }
    }
  }

  lemma FailInPlace(opens: Opener, s: State, p: Pid)
    requires InPlace(opens, s) && p in s.procs && Sane(FailProc(s, p, s.procs[p]))
    ensures InPlace(opens, FailProc(s, p, s.procs[p]))
  {
    var s' := FailProc(s, p, s.procs[p]);
    forall q | q in s'.procs && s'.procs[q].Upload?
      ensures PlacedUpload(opens, s', s'.procs[q])
    {
      assert PlacedUpload(opens, s, s.procs[q]);
    }
  }

  lemma StepInPlace(opens: Opener, s: State, step: Step)
    requires InPlace(opens, s) && !LateUnlink(s, step)
    requires step.StartUpload? ==> SealedCargo(opens, step.cargo)
    ensures InPlace(opens, Do(s, step))
  {
    StepSane(s, step);
    match step
    case Tick(p) =>
      if p in s.procs {
        if s.procs[p].Upload? { TickUploadInPlace(opens, s, p); } else { TickDeleteInPlace(opens, s, p); }
      }
    case Fail(p) => if p in s.procs { FailInPlace(opens, s, p); }
    case _ =>
  }

  lemma {:induction false} RunInPlace(opens: Opener, s: State, steps: seq<Step>)
    requires InPlace(opens, s) && NoLateUnlink(s, steps) && Sealed(opens, steps)
    ensures InPlace(opens, Exec(s, steps))
  {
    if steps == [] {
    } else {
      var init, last := steps[..|steps| - 1], steps[|steps| - 1];
      assert Sealed(opens, init);
      RunInPlace(opens, s, init);
      StepInPlace(opens, Exec(s, init), last);
    }
  }

  /** Over every interleaving of uploads and deletes, with errors and crashes anywhere, every
      committed blob row has an object that opens under its key, provided no unlink is late. */
  lemma ObjectsInPlace(opens: Opener, steps: seq<Step>)
    requires NoLateUnlink(INIT, steps) && Sealed(opens, steps)
    ensures RowsOpen(opens, Exec(INIT, steps))
  {
    RunInPlace(opens, INIT, steps);
  }

  /** The same for the real object format: every row opens to bytes with its digest. */
  lemma EveryRowReadable(p: Primitives, kek: bytes, steps: seq<Step>)
    requires p.Sound() && ValidKey(kek) && NoLateUnlink(INIT, steps)
    requires forall i :: 0 <= i < |steps| && steps[i].StartUpload? ==>
      exists content :: Encloses(p, kek, steps[i].cargo, content)
    ensures var s := Exec(INIT, steps);
      forall h :: h in s.rows ==>
        && h in s.objects
        && OpenObject(p, kek, s.objects[h], h, s.rows[h].wrappedDek).Some?
        && p.sha256(OpenObject(p, kek, s.objects[h], h, s.rows[h].wrappedDek).value) == h
  {
    var opens: Opener := (f, h, k) => OpenObject(p, kek, f, h, k).Some?;
    forall i | 0 <= i < |steps| && steps[i].StartUpload?
      ensures SealedCargo(opens, steps[i].cargo)
    {
      var content :| Encloses(p, kek, steps[i].cargo, content);
      EnvelopeOpens(p, kek, steps[i].cargo, content);
    }
    ObjectsInPlace(opens, steps);
  }

  /** An unlink about to run is safe, in all that may follow without a further late unlink,
      exactly when the blob has not come back. */
  lemma LateUnlinkExactly(opens: Opener, s: State, p: Pid)
    requires InPlace(opens, s) && Unlinking(s, p)
    ensures (forall steps :: NoLateUnlink(Do(s, Tick(p)), steps) && Sealed(opens, steps)
               ==> RowsOpen(opens, Exec(Do(s, Tick(p)), steps)))
       <==> !Occupied(s, s.procs[p].hash)
  {
    var h, s' := s.procs[p].hash, Do(s, Tick(p));
    if !Occupied(s, h) {
      StepInPlace(opens, s, Tick(p));
      forall steps | NoLateUnlink(s', steps) && Sealed(opens, steps)
        ensures RowsOpen(opens, Exec(s', steps))
      {
        RunInPlace(opens, s', steps);
      }
    } else if h in s.rows {
      var none: seq<Step> := [];
      assert Exec(s', none) == s' && NoLateUnlink(s', none) && Sealed(opens, none);
      assert !RowsOpen(opens, s');
    } else {
      var q :| q in s.procs && InFlight(s.procs[q], h);
      var steps := CommitAfterUnlink(opens, s', q, h);
      assert Sealed(opens, steps);
    }
  }

  /** An upload in flight without its object goes on to commit a row that has none. */
  lemma CommitAfterUnlink(opens: Opener, s: State, q: Pid, h: bytes) returns (steps: seq<Step>)
    requires q in s.procs && InFlight(s.procs[q], h) && h !in s.objects
    ensures NoLateUnlink(s, steps) && steps <= [Tick(q), Tick(q)] && !RowsOpen(opens, Exec(s, steps))
  {
    var one := [Tick(q)];
    var two := [Tick(q), Tick(q)];
    assert one[..0] == [] && two[..1] == one;
    assert Exec(s, []) == s;
    assert Exec(s, one) == Do(s, Tick(q));
    assert NoLateUnlink(s, []) && NoLateUnlink(s, one);
    if s.procs[q].up.CommitUpload? {
      steps := one;
      assert h in Exec(s, one).rows;
    } else {
      assert Exec(s, two) == Do(Do(s, Tick(q)), Tick(q));
      steps := two;
      assert h in Exec(s, two).rows;
    }
  }

  /** The natural discipline: no upload inserts a blob row while a delete of that blob is between
      its commit and its unlink. */
  ghost predicate Disciplined(s: State, steps: seq<Step>) {
    steps == [] ||
    var init, last := steps[..|steps| - 1], steps[|steps| - 1];
    Disciplined(s, init) && !InsertsDuringUnlink(Exec(s, init), last)
  }

  ghost predicate InsertsDuringUnlink(s: State, step: Step) {
    && step.Tick? && step.p in s.procs && s.procs[step.p].Upload? && s.procs[step.p].up.InsertBlob?
    && exists d :: Unlinking(s, d) && s.procs[d].hash == s.procs[step.p].cargo.hash
  }

  /** Nothing holds or occupies a blob that is being unlinked. */
  ghost predicate UnlinkedGone(s: State) {
    forall d :: Unlinking(s, d) ==>
      s.procs[d].hash !in s.rows && forall q :: q in s.procs ==> !Holds(s.procs[q], s.procs[d].hash)
  }

  lemma NewlyHeld(s: State, p: Pid, h: bytes)
    requires p in s.procs && s.procs[p].Upload? && !Holds(s.procs[p], h) && h !in s.rows
    requires h == s.procs[p].cargo.hash ==> !s.procs[p].up.InsertBlob?
    ensures var s' := TickUpload(s, p, s.procs[p]); h !in s'.rows && p in s'.procs && !Holds(s'.procs[p], h)
  {
    match s.procs[p].up
    case Select =>
    case InsertBlob =>
    case _ =>
  }

  lemma UploadKeepsGone(s: State, p: Pid)
    requires Sane(s) && UnlinkedGone(s) && p in s.procs && s.procs[p].Upload? && !InsertsDuringUnlink(s, Tick(p))
    ensures UnlinkedGone(TickUpload(s, p, s.procs[p]))
  {
    var s' := TickUpload(s, p, s.procs[p]);
    assert s'.procs == s.procs[p := s'.procs[p]] && s'.procs[p].Upload?;
    forall d | Unlinking(s', d)
      ensures s'.procs[d].hash !in s'.rows && forall q :: q in s'.procs ==> !Holds(s'.procs[q], s'.procs[d].hash)
    {
      assert Unlinking(s, d) && s'.procs[d] == s.procs[d];
      NewlyHeld(s, p, s.procs[d].hash);
    }
  }

  lemma OthersHoldNot(s: State, p: Pid, h: bytes)
    requires Sane(s) && p in s.procs && s.procs[p].Delete? && h !in s.rows
    requires !Holds(s.procs[p], h)
    ensures var s' := TickDelete(s, p, s.procs[p]); h !in s'.rows && p in s'.procs && !Holds(s'.procs[p], h)
  {
    assert ProcOk(s, p, s.procs[p]);
    match s.procs[p].del
    case DeleteNode =>
    case Dereference(_) =>
    case _ =>
  }

  /** A delete that goes on to unlink its own object. */
  lemma OwnIsGone(s: State, p: Pid)
    requires Sane(s) && UnlinkedGone(s) && p in s.procs && s.procs[p].Delete?
    requires Unlinking(TickDelete(s, p, s.procs[p]), p)
    ensures var s', h := TickDelete(s, p, s.procs[p]), s.procs[p].hash;
      h !in s'.rows && forall q :: q in s'.procs ==> !Holds(s'.procs[q], h)
  {
    var c, s' := s.procs[p], TickDelete(s, p, s.procs[p]);
    assert ProcOk(s, p, c) && c.del.CommitDelete? && Holds(c, c.hash);
  }

  lemma DeleteKeepsGone(s: State, p: Pid)
    requires Sane(s) && UnlinkedGone(s) && p in s.procs && s.procs[p].Delete?
    ensures UnlinkedGone(TickDelete(s, p, s.procs[p]))
  {
    var s' := TickDelete(s, p, s.procs[p]);
    DeleteMovesOnly(s, p);
    forall d | Unlinking(s', d)
      ensures s'.procs[d].hash !in s'.rows && forall q :: q in s'.procs ==> !Holds(s'.procs[q], s'.procs[d].hash)
    {
      if d == p {
        OwnIsGone(s, p);
      } else {
        assert Unlinking(s, d);
        OthersHoldNot(s, p, s.procs[d].hash);
      }
    }
  }

  lemma DisciplinedStep(s: State, step: Step)
    requires Sane(s) && UnlinkedGone(s) && !InsertsDuringUnlink(s, step)
    ensures UnlinkedGone(Do(s, step)) && !LateUnlink(s, step)
  {
    if step.Tick? && step.p in s.procs {
      if s.procs[step.p].Upload? { UploadKeepsGone(s, step.p); } else { DeleteKeepsGone(s, step.p); }
    }
  }

  /** In a disciplined run no unlink is late, so ObjectsInPlace applies. */
  lemma {:induction false} DisciplineSuffices(steps: seq<Step>)
    requires Disciplined(INIT, steps)
    ensures NoLateUnlink(INIT, steps) && UnlinkedGone(Exec(INIT, steps))
  {
    if steps == [] {
    } else {
      var init, last := steps[..|steps| - 1], steps[|steps| - 1];
      DisciplineSuffices(init);
      RunSane(INIT, init);
      DisciplinedStep(Exec(INIT, init), last);
    }
  }

  // ----- a run that loses an object -----

  /** Without the discipline an object is lost: the content is uploaded, deleted up to the commit,
      uploaded again, and then unlinked. */
  lemma LateUnlinkLosesObject(cargo: Envelope) returns (steps: seq<Step>)
    ensures forall i :: 0 <= i < |steps| && steps[i].StartUpload? ==> steps[i].cargo == cargo
    ensures var s := Exec(INIT, steps); cargo.hash in s.rows && cargo.hash !in s.objects
  {
    var a := [StartUpload(1, cargo)] + Ticks(1, 6);
    var b := [StartDelete(2, 1)] + Ticks(2, 4);
    var c := [StartUpload(3, cargo)] + Ticks(3, 6);
    steps := a + b + c + [Tick(2)];
    ThirdUploadDone(cargo);
    ExecConcat(INIT, a, b);
    ExecConcat(INIT, a + b, c);
    var sc := Exec(INIT, a + b + c);
    assert steps[..|steps| - 1] == a + b + c;
    assert Exec(INIT, steps) == Do(sc, Tick(2));
  }

  lemma FirstUploadDone(cargo: Envelope)
    ensures var s := Exec(INIT, [StartUpload(1, cargo)] + Ticks(1, 6));
      && Sane(s) && s.rows == map[cargo.hash := Row(cargo.wrappedDek, 1)] && s.nodes == map[1 := cargo.hash]
      && s.procs == map[1 := Upload(cargo, 0, true, Returned(Ok))] && s.born == {1}
  {
    UploadAlone(INIT, 1, cargo);
    RunSane(INIT, [StartUpload(1, cargo)] + Ticks(1, 6));
  }

  lemma DeleteDone(cargo: Envelope)
    ensures var s := Exec(Exec(INIT, [StartUpload(1, cargo)] + Ticks(1, 6)), [StartDelete(2, 1)] + Ticks(2, 4));
      && Sane(s) && s.rows == map[] && s.born == {1, 2}
      && s.procs == map[1 := Upload(cargo, 0, true, Returned(Ok)), 2 := Delete(1, cargo.hash, Unlink)]
  {
    FirstUploadDone(cargo);
    var s := Exec(INIT, [StartUpload(1, cargo)] + Ticks(1, 6));
    var s' := Do(s, StartDelete(2, 1));
    StartThenTicks(s, StartDelete(2, 1), 2, 4);
    DeleteCommits(s', 2);
    RunSane(s, [StartDelete(2, 1)] + Ticks(2, 4));
    assert s.rows - {cargo.hash} == map[];
  }

  lemma ThirdUploadDone(cargo: Envelope)
    ensures var sa := Exec(INIT, [StartUpload(1, cargo)] + Ticks(1, 6));
      var sb := Exec(sa, [StartDelete(2, 1)] + Ticks(2, 4));
      var sc := Exec(sb, [StartUpload(3, cargo)] + Ticks(3, 6));
      && cargo.hash in sc.rows && 2 in sc.procs && sc.procs[2] == Delete(1, cargo.hash, Unlink)
  {
    DeleteDone(cargo);
    var sb := Exec(Exec(INIT, [StartUpload(1, cargo)] + Ticks(1, 6)), [StartDelete(2, 1)] + Ticks(2, 4));
    UploadAlone(sb, 3, cargo);
  }
}
