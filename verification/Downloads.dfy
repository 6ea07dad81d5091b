/** Downloads beside uploads and deletes. Download of internal/files/files.go reads the node and its
    blob's key in one query and opens the object later, outside any lock: what it finds there, over
    every interleaving. A download changes nothing, so it is two moments of a run of Protocol. */
module Downloads {
  import opened Prelude
  import opened Crypto
  import opened Storage
  import opened Protocol
  import opened SoloRuns
  import opened ObjectsInPlace
  import ReferenceCounts
  import RetryLoop

  // ----- what the uploads of a run staged -----

  /** Each upload of the run, by its number, staged this. */
  ghost predicate Listed(cargos: map<Pid, Envelope>, steps: seq<Step>) {
    forall i :: 0 <= i < |steps| && steps[i].StartUpload? ==> Lists(cargos, steps[i])
  }

  predicate Lists(cargos: map<Pid, Envelope>, step: Step) {
    step.StartUpload? ==> step.p in cargos && cargos[step.p] == step.cargo
  }

  ghost predicate Enclosed(p: Primitives, kek: bytes, cargos: map<Pid, Envelope>, contents: map<Pid, bytes>) {
    cargos.Keys == contents.Keys && forall q :: q in cargos ==> Encloses(p, kek, cargos[q], contents[q])
  }

  /** SHA-256 has no collision among these contents. */
  ghost predicate NoneCollide(p: Primitives, contents: map<Pid, bytes>) {
    forall i, k :: i in contents && k in contents && p.sha256(contents[i]) == p.sha256(contents[k]) ==>
      contents[i] == contents[k]
  }

  /** What one upload staged does not open under the key of another. */
  ghost predicate KeysApart(p: Primitives, kek: bytes, cargos: map<Pid, Envelope>) {
    forall i, k :: i in cargos && k in cargos && i != k && cargos[i].hash == cargos[k].hash ==>
      OpenObject(p, kek, cargos[i].file, cargos[i].hash, cargos[k].wrappedDek) == None
  }

  /** The envelope was made with this key. */
  ghost predicate HoldsKey(p: Primitives, kek: bytes, e: Envelope, content: bytes, dek: bytes) {
    exists wrapNonce: bytes, nonce: bytes :: EnclosesWith(p, kek, e, content, dek, wrapNonce, nonce)
  }

  /** With authenticated encryption, and a key of its own for each upload, it never does. */
  lemma OwnKeysAreApart(p: Primitives, kek: bytes, cargos: map<Pid, Envelope>, contents: map<Pid, bytes>,
                        deks: map<Pid, bytes>)
    requires p.Sound() && p.Authentic() && ValidKey(kek) && cargos.Keys == contents.Keys == deks.Keys
    requires forall q :: q in cargos ==> HoldsKey(p, kek, cargos[q], contents[q], deks[q])
    requires forall i, k :: i in deks && k in deks && i != k ==> deks[i] != deks[k]
    ensures KeysApart(p, kek, cargos)
  {
    forall i, k | i in cargos && k in cargos && i != k && cargos[i].hash == cargos[k].hash
      ensures OpenObject(p, kek, cargos[i].file, cargos[i].hash, cargos[k].wrappedDek) == None
    {
      assert HoldsKey(p, kek, cargos[i], contents[i], deks[i]) && HoldsKey(p, kek, cargos[k], contents[k], deks[k]);
      var wi, ni :| EnclosesWith(p, kek, cargos[i], contents[i], deks[i], wi, ni);
      var wk, nk :| EnclosesWith(p, kek, cargos[k], contents[k], deks[k], wk, nk);
      UnwrapUndoesWrap(p, kek, deks[k], cargos[k].hash, wk);
      OtherKeyFails(p, kek, cargos[i], contents[i], deks[i], wi, ni, cargos[k].wrappedDek);
    }
  }

  /** What Store.Open makes of a well-formed address and a key. */
  datatype Fetched = Missing | Broken | Got(content: bytes)

  function Fetch(p: Primitives, kek: bytes, objects: map<bytes, bytes>, h: bytes, key: bytes): Fetched {
    if h !in objects then Missing
    else match OpenObject(p, kek, objects[h], h, key)
      case None => Broken
      case Some(content) => Got(content)
  }

  // ----- nodes and objects belong to uploads -----

  /** A node names the content its own upload staged. */
  ghost predicate Owned(s: State, cargos: map<Pid, Envelope>) {
    && (forall n :: n in s.nodes ==> n in cargos && s.nodes[n] == cargos[n].hash)
    && (forall q :: q in s.procs && s.procs[q].Upload? ==> q in cargos && s.procs[q].cargo == cargos[q])
  }

  lemma NodesFrom(s: State, p: Pid, n: Pid)
    requires p in s.procs && n in Do(s, Tick(p)).nodes
    ensures var s' := Do(s, Tick(p));
      || (n in s.nodes && s'.nodes[n] == s.nodes[n])
      || (n == p && s.procs[p].Upload? && s'.nodes[n] == s.procs[p].cargo.hash)
  {
    match s.procs[p]
    case Upload(_, _, _, up) => if !up.CommitUpload? { assert TickUpload(s, p, s.procs[p]).nodes == s.nodes; }
    case Delete(_, _, _) =>
  }

  lemma OwnedTick(s: State, p: Pid, cargos: map<Pid, Envelope>)
    requires Owned(s, cargos) && p in s.procs
    ensures Owned(Do(s, Tick(p)), cargos)
  {
    TickMovesOnly(s, p);
    forall n | n in Do(s, Tick(p)).nodes
      ensures n in cargos && Do(s, Tick(p)).nodes[n] == cargos[n].hash
    {
      NodesFrom(s, p, n);
    }
  }

  lemma OwnedStep(s: State, step: Step, cargos: map<Pid, Envelope>)
    requires Owned(s, cargos) && Lists(cargos, step)
    ensures Owned(Do(s, step), cargos)
  {
    if step.Tick? {
      if step.p in s.procs { OwnedTick(s, step.p, cargos); }
    } else {
      assert Do(s, step).nodes == s.nodes;
    }
  }

  /** Upload `q` has finalized what it staged. */
  predicate Finalized(s: State, q: Pid) {
    q in s.born && (q in s.procs ==> s.procs[q].Upload? && s.procs[q].done)
  }

  lemma FinalizedStep(s: State, step: Step, q: Pid)
    requires Finalized(s, q)
    ensures Finalized(Do(s, step), q)
  {
    if step.Tick? && step.p in s.procs {
      TickMovesOnly(s, step.p);
      if step.p == q && q in s.procs { FinalizedTick(s, q); }
    }
  }

  lemma FinalizedTick(s: State, q: Pid)
    requires q in s.procs && s.procs[q].Upload? && s.procs[q].done
    ensures var s' := TickUpload(s, q, s.procs[q]); q in s'.procs && s'.procs[q].Upload? && s'.procs[q].done
    ensures TickUpload(s, q, s.procs[q]).born == s.born
  {
    match s.procs[q].up
    case Select =>
    case InsertBlob =>
    case Publish(_) =>
    case _ =>
  }

  lemma {:induction false} FinalizedStays(s: State, steps: seq<Step>, q: Pid)
    requires Finalized(s, q)
    ensures Finalized(Exec(s, steps), q)
  {
    if steps == [] {
    } else {
      var init, last := steps[..|steps| - 1], steps[|steps| - 1];
      FinalizedStays(s, init, q);
      FinalizedStep(Exec(s, init), last, q);
    }
  }

  /** The object at `h` is what upload `q` staged and published. */
  ghost predicate Origin(s: State, cargos: map<Pid, Envelope>, h: bytes, q: Pid) {
    && q in cargos && cargos[q].hash == h && h in s.objects && s.objects[h] == cargos[q].file
    && Finalized(s, q)
  }

  ghost predicate Published(s: State, cargos: map<Pid, Envelope>) {
    forall h :: h in s.objects ==> exists q :: Origin(s, cargos, h, q)
  }

  // ----- writes to one object -----

  datatype Write = Untouched | Unlinked | Replaced(upload: Pid)

  /** What a step does to the object at `h`. */
  function WriteOf(s: State, step: Step, h: bytes): Write {
    if !step.Tick? || step.p !in s.procs then Untouched
    else match s.procs[step.p]
      case Upload(cargo, _, done, up) =>
        if up.Publish? && !done && cargo.hash == h then Replaced(step.p) else Untouched
      case Delete(_, hash, del) => if del.Unlink? && hash == h then Unlinked else Untouched
  }

  /** The last write to the object at `h`. */
  function LastWrite(s: State, steps: seq<Step>, h: bytes): Write {
    if steps == [] then Untouched
    else
      var init, last := steps[..|steps| - 1], steps[|steps| - 1];
      var write := WriteOf(Exec(s, init), last, h);
      if write.Untouched? then LastWrite(s, init, h) else write
  }

  lemma WriteIs(s: State, step: Step, h: bytes)
    ensures var s' := Do(s, step);
      match WriteOf(s, step, h)
      case Untouched => (h in s'.objects <==> h in s.objects) && (h in s.objects ==> s'.objects[h] == s.objects[h])
      case Unlinked => h !in s'.objects
      case Replaced(q) =>
        && q in s.procs && s.procs[q].Upload? && s.procs[q].cargo.hash == h && !Finalized(s, q)
        && q in s'.procs && s'.procs[q].Upload? && s'.procs[q].done && s'.born == s.born
        && h in s'.objects && s'.objects[h] == s.procs[q].cargo.file
  {
  }

  lemma PublishedStep(s: State, step: Step, cargos: map<Pid, Envelope>)
    requires Sane(s) && Owned(s, cargos) && Published(s, cargos)
    ensures Published(Do(s, step), cargos)
  {
    var s' := Do(s, step);
    forall h | h in s'.objects
      ensures exists q :: Origin(s', cargos, h, q)
    {
      WriteIs(s, step, h);
      match WriteOf(s, step, h)
      case Untouched =>
        var q :| Origin(s, cargos, h, q);
        FinalizedStep(s, step, q);
        assert Origin(s', cargos, h, q);
      case Replaced(q) =>
        assert ProcOk(s, q, s.procs[q]);
        assert Origin(s', cargos, h, q);
    }
  }

  lemma {:induction false} RunOwned(steps: seq<Step>, cargos: map<Pid, Envelope>)
    requires Listed(cargos, steps)
    ensures var s := Exec(INIT, steps); Sane(s) && Owned(s, cargos) && Published(s, cargos)
  {
    if steps == [] {
    } else {
      var init, last := steps[..|steps| - 1], steps[|steps| - 1];
      assert Lists(cargos, last) && Listed(cargos, init);
      RunOwned(init, cargos);
      var s := Exec(INIT, init);
      StepSane(s, last);
      OwnedStep(s, last, cargos);
      PublishedStep(s, last, cargos);
    }
  }

  /** What is at `h` after a run, by the last write to it. */
  lemma {:induction false} ObjectAfter(s: State, steps: seq<Step>, h: bytes, cargos: map<Pid, Envelope>)
    requires Owned(s, cargos) && Listed(cargos, steps)
    ensures Owned(Exec(s, steps), cargos)
    ensures var s' := Exec(s, steps);
      match LastWrite(s, steps, h)
      case Untouched => (h in s'.objects <==> h in s.objects) && (h in s.objects ==> s'.objects[h] == s.objects[h])
      case Unlinked => h !in s'.objects
      case Replaced(q) =>
        && q in cargos && cargos[q].hash == h && h in s'.objects && s'.objects[h] == cargos[q].file
        && !Finalized(s, q)
  {
    if steps == [] {
    } else {
      var init, last := steps[..|steps| - 1], steps[|steps| - 1];
      var t := Exec(s, init);
      assert Lists(cargos, last) && Listed(cargos, init);
      ObjectAfter(s, init, h, cargos);
      OwnedStep(t, last, cargos);
      WriteIs(t, last, h);
      var write := WriteOf(t, last, h);
      if write.Replaced? && Finalized(s, write.upload) { FinalizedStays(s, init, write.upload); }
    }
  }

  // ----- reading back -----

  /** Every row's object and key are of one upload. */
  lemma RowOfUpload(cargos: map<Pid, Envelope>, steps: seq<Step>, h: bytes) returns (q: Pid)
    requires Listed(cargos, steps) && NoLateUnlink(INIT, steps) && h in Exec(INIT, steps).rows
    ensures var s := Exec(INIT, steps);
      && q in cargos && cargos[q].hash == h && h in s.objects && s.objects[h] == cargos[q].file
      && s.rows[h].wrappedDek == cargos[q].wrappedDek
  {
    var opens: Opener := (f, a, k) =>
      exists q :: q in cargos && cargos[q].hash == a && cargos[q].file == f && cargos[q].wrappedDek == k;
    forall i | 0 <= i < |steps| && steps[i].StartUpload?
      ensures SealedCargo(opens, steps[i].cargo)
    {
      assert Lists(cargos, steps[i]);
    }
    RunInPlace(opens, INIT, steps);
    var s := Exec(INIT, steps);
    assert opens(s.objects[h], h, s.rows[h].wrappedDek);
    q :| q in cargos && cargos[q].hash == h
      && cargos[q].file == s.objects[h] && cargos[q].wrappedDek == s.rows[h].wrappedDek;
  }

  lemma OneContent(p: Primitives, kek: bytes, cargos: map<Pid, Envelope>, contents: map<Pid, bytes>, q: Pid, n: Pid)
    requires p.Sound() && ValidKey(kek) && Enclosed(p, kek, cargos, contents) && NoneCollide(p, contents)
    requires q in cargos && n in cargos && cargos[q].hash == cargos[n].hash
    ensures OpenObject(p, kek, cargos[q].file, cargos[n].hash, cargos[q].wrappedDek) == Some(contents[n])
  {
    EnvelopeOpens(p, kek, cargos[q], contents[q]);
    assert p.sha256(contents[q]) == p.sha256(contents[n]);
  }

  /** Every committed node reads back as exactly the content its own upload staged. */
  lemma NodeReadsBack(p: Primitives, kek: bytes, cargos: map<Pid, Envelope>, contents: map<Pid, bytes>,
                      steps: seq<Step>, n: Pid)
    requires p.Sound() && ValidKey(kek) && Enclosed(p, kek, cargos, contents) && NoneCollide(p, contents)
    requires Listed(cargos, steps) && NoLateUnlink(INIT, steps) && n in Exec(INIT, steps).nodes
    ensures var s := Exec(INIT, steps);
      && s.nodes[n] in s.rows && n in contents
      && Fetch(p, kek, s.objects, s.nodes[n], s.rows[s.nodes[n]].wrappedDek) == Got(contents[n])
  {
    ReferenceCounts.CountsBounded(steps);
    RunOwned(steps, cargos);
    var q := RowOfUpload(cargos, steps, Exec(INIT, steps).nodes[n]);
    OneContent(p, kek, cargos, contents, q, n);
  }

  /** Over every interleaving, with errors and crashes anywhere and no late unlink: an upload that has
      reported success, and whose deletion nobody has asked for, reads back as exactly its own content. */
  lemma UploadReadsBack(p: Primitives, kek: bytes, cargos: map<Pid, Envelope>, contents: map<Pid, bytes>,
                        steps: seq<Step>, u: Pid)
    requires p.Sound() && ValidKey(kek) && Enclosed(p, kek, cargos, contents) && NoneCollide(p, contents)
    requires Listed(cargos, steps) && NoLateUnlink(INIT, steps)
    requires forall d :: StartDelete(d, u) !in steps
    requires RetryLoop.Succeeded(Exec(INIT, steps), u)
    ensures var s := Exec(INIT, steps);
      && u in s.nodes && s.nodes[u] in s.rows && u in contents
      && Fetch(p, kek, s.objects, s.nodes[u], s.rows[s.nodes[u]].wrappedDek) == Got(contents[u])
  {
    RetryLoop.OkMeansStored(steps, u);
    NodeReadsBack(p, kek, cargos, contents, steps, u);
  }

  // ----- overlapping downloads -----

  /** The object and the key at `h` are of one upload, which has published. */
  lemma RowOrigin(p: Primitives, kek: bytes, cargos: map<Pid, Envelope>, contents: map<Pid, bytes>,
                  steps: seq<Step>, h: bytes) returns (q: Pid)
    requires p.Sound() && ValidKey(kek) && Enclosed(p, kek, cargos, contents) && KeysApart(p, kek, cargos)
    requires Listed(cargos, steps) && NoLateUnlink(INIT, steps) && h in Exec(INIT, steps).rows
    ensures var s := Exec(INIT, steps); Origin(s, cargos, h, q) && s.rows[h].wrappedDek == cargos[q].wrappedDek
  {
    var s := Exec(INIT, steps);
    RunOwned(steps, cargos);
    q := RowOfUpload(cargos, steps, h);
    var k :| Origin(s, cargos, h, k);
    EnvelopeOpens(p, kek, cargos[k], contents[k]);
    assert OpenObject(p, kek, cargos[q].file, h, cargos[k].wrappedDek) != None;
  }

  /** A download that reads node `n` and its key after `before`, and opens the object after `after`,
      gives exactly the node's own content unless the object was written in between: unlinked, it is
      missing; replaced by a later upload of the content, it does not open under the key read. */
  lemma DownloadExactly(p: Primitives, kek: bytes, cargos: map<Pid, Envelope>, contents: map<Pid, bytes>,
                        before: seq<Step>, after: seq<Step>, n: Pid)
    requires p.Sound() && ValidKey(kek) && Enclosed(p, kek, cargos, contents)
    requires NoneCollide(p, contents) && KeysApart(p, kek, cargos)
    requires Listed(cargos, before) && Listed(cargos, after)
    requires NoLateUnlink(INIT, before) && n in Exec(INIT, before).nodes
    ensures var s := Exec(INIT, before);
      var h := s.nodes[n];
      && h in s.rows && n in contents
      && Fetch(p, kek, Exec(s, after).objects, h, s.rows[h].wrappedDek)
         == match LastWrite(s, after, h)
            case Untouched => Got(contents[n])
            case Unlinked => Missing
            case Replaced(_) => Broken
  {
    var s := Exec(INIT, before);
    var h := s.nodes[n];
    ReferenceCounts.CountsBounded(before);
    RunOwned(before, cargos);
    var q := RowOrigin(p, kek, cargos, contents, before, h);
    ObjectAfter(s, after, h, cargos);
    OneContent(p, kek, cargos, contents, q, n);
  }

  /** The node is there all the time. */
  ghost predicate Stays(s: State, steps: seq<Step>, n: Pid) {
    n in Exec(s, steps).nodes && (steps == [] || Stays(s, steps[..|steps| - 1], n))
  }

  lemma NoWriteToNamed(s: State, step: Step, h: bytes)
    requires Sane(s) && h in s.rows && !LateUnlink(s, step)
    ensures WriteOf(s, step, h) == Untouched
  {
    if step.Tick? && step.p in s.procs { assert ProcOk(s, step.p, s.procs[step.p]); }
  }

  lemma {:induction false} NoWriteWhileNamed(before: seq<Step>, after: seq<Step>, n: Pid)
    requires var s := Exec(INIT, before); Stays(s, after, n) && NoLateUnlink(s, after)
    ensures var s := Exec(INIT, before);
      n in s.nodes && n in Exec(s, after).nodes && Exec(s, after).nodes[n] == s.nodes[n]
      && LastWrite(s, after, s.nodes[n]) == Untouched
  {
    var s := Exec(INIT, before);
    if after == [] {
    } else {
      var init, last := after[..|after| - 1], after[|after| - 1];
      NoWriteWhileNamed(before, init, n);
      ExecConcat(INIT, before, init);
      ReferenceCounts.CountsBounded(before + init);
      NoWriteToNamed(Exec(s, init), last, s.nodes[n]);
      NodesKeepNames(Exec(s, init), last, n);
    }
  }

  lemma NodesKeepNames(s: State, step: Step, n: Pid)
    requires Sane(s) && n in s.nodes && n in Do(s, step).nodes
    ensures Do(s, step).nodes[n] == s.nodes[n]
  {
    if step.Tick? && step.p in s.procs { assert ProcOk(s, step.p, s.procs[step.p]); }
  }

  /** So a download fails only if its node was deleted meanwhile: as long as the node stays, and no
      unlink is late, the download gives its own content, whatever else runs beside it. */
  lemma DownloadWhileThere(p: Primitives, kek: bytes, cargos: map<Pid, Envelope>, contents: map<Pid, bytes>,
                           before: seq<Step>, after: seq<Step>, n: Pid)
    requires p.Sound() && ValidKey(kek) && Enclosed(p, kek, cargos, contents)
    requires NoneCollide(p, contents) && KeysApart(p, kek, cargos)
    requires Listed(cargos, before) && Listed(cargos, after)
    requires NoLateUnlink(INIT, before) && NoLateUnlink(Exec(INIT, before), after)
    requires Stays(Exec(INIT, before), after, n)
    ensures var s := Exec(INIT, before);
      && n in s.nodes && s.nodes[n] in s.rows && n in contents
      && Fetch(p, kek, Exec(s, after).objects, s.nodes[n], s.rows[s.nodes[n]].wrappedDek) == Got(contents[n])
  {
    NoWriteWhileNamed(before, after, n);
    DownloadExactly(p, kek, cargos, contents, before, after, n);
  }

  // ----- a false integrity failure -----

  /** The content is uploaded, read by a download, deleted and uploaded again. */
  function Overtaking(b: Envelope): seq<Step> {
    [StartDelete(2, 1)] + Ticks(2, 5) + UploadSteps(3, b)
  }

  lemma OnlyNodeIsFree(s: State, s': State, h: bytes)
    requires s.rows.Keys == {h} && s.rows[h].refs == 1 && s.nodes == map[1 := h] && s.born == {1}
    requires s.procs.Keys == {1} && Finished(s.procs[1]) && s' == Do(s, StartDelete(2, 1))
    ensures Undisturbable(s', 2) && Last(s', 2)
  {
  }

  lemma DeleteOnlyNode(s: State, h: bytes)
    requires Sane(s) && s.rows.Keys == {h} && s.rows[h].refs == 1 && s.nodes == map[1 := h] && s.born == {1}
    requires s.procs.Keys == {1} && Finished(s.procs[1])
    ensures var s' := Exec(s, [StartDelete(2, 1)] + Ticks(2, 5));
      && Sane(s') && s'.born == {1, 2} && s'.procs.Keys == {1, 2} && s'.rows == map[]
      && forall q :: q in s'.procs ==> Finished(s'.procs[q])
  {
    StartThenTicks(s, StartDelete(2, 1), 2, 5);
    var s' := Do(s, StartDelete(2, 1));
    OnlyNodeIsFree(s, s', h);
    DeleteAlone(s', 2);
    RunSane(s, [StartDelete(2, 1)] + Ticks(2, 5));
    assert s'.rows - {h} == map[];
  }

  lemma FirstDeleted(a: Envelope)
    ensures var s := Exec(Uploaded(INIT, 1, a), [StartDelete(2, 1)] + Ticks(2, 5));
      && Sane(s) && s.born == {1, 2} && s.procs.Keys == {1, 2} && s.rows == map[]
      && forall q :: q in s.procs ==> Finished(s.procs[q])
  {
    UploadAlone(INIT, 1, a);
    RunSane(INIT, UploadSteps(1, a));
    DeleteOnlyNode(Uploaded(INIT, 1, a), a.hash);
  }

  lemma FreeForAll(s: State, h: bytes)
    requires forall q :: q in s.procs ==> Finished(s.procs[q])
    ensures Free(s, h)
  {
  }

  /** A download that has read its key before the content is deleted and uploaded again finds an
      object it cannot open, and reports an integrity failure for a content that is stored and
      readable. */
  lemma DownloadOvertaken(p: Primitives, kek: bytes, a: Envelope, b: Envelope, content: bytes)
    requires p.Sound() && ValidKey(kek) && Encloses(p, kek, a, content) && Encloses(p, kek, b, content)
    requires OpenObject(p, kek, b.file, b.hash, a.wrappedDek) == None
    ensures var s := Exec(INIT, UploadSteps(1, a));
      var s', h := Exec(s, Overtaking(b)), p.sha256(content);
      && 1 in s.nodes && s.nodes[1] == h && h in s.rows
      && Fetch(p, kek, s'.objects, h, s.rows[h].wrappedDek) == Broken
      && 3 in s'.nodes && s'.nodes[3] == h && h in s'.rows
      && Fetch(p, kek, s'.objects, h, s'.rows[h].wrappedDek) == Got(content)
  {
    UploadAlone(INIT, 1, a);
    var s := Uploaded(INIT, 1, a);
    var s1 := Exec(s, [StartDelete(2, 1)] + Ticks(2, 5));
    FirstDeleted(a);
    FreeForAll(s1, b.hash);
    UploadAlone(s1, 3, b);
    ExecConcat(s, [StartDelete(2, 1)] + Ticks(2, 5), UploadSteps(3, b));
    EnvelopeOpens(p, kek, b, content);
  }
}
