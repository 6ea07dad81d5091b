/** The two models of internal/files/files.go agree: the statements of Protocol, run one after the
    other without disturbance, do to the tables and objects what the transactions of Repository do
    at once. */
module Agreement {
  import opened Prelude
  import opened Authz
  import Crypto
  import opened Storage
  import opened Protocol
  import opened SoloRuns
  import R = Repository

  /** What Protocol sees of the tables. */
  function RowsOf(db: R.Tables): map<bytes, Row> {
    map h | h in db.blobs :: Row(db.blobs[h].wrappedDek, db.blobs[h].refCount)
  }

  function NodesOf(db: R.Tables): map<Pid, bytes> {
    map n | n in db.nodes :: db.nodes[n].blobHash
  }

  ghost predicate Agree(s: State, db: R.Tables) {
    s.rows == RowsOf(db) && s.nodes == NodesOf(db)
  }

  /** Objects by address, and by path below the root. */
  ghost predicate SameObjects(s: State, root: string, objects: map<string, bytes>) {
    forall h: bytes :: |h| == Crypto.HASH_SIZE ==>
      (h in s.objects <==> ObjectPath(root, h) in objects)
      && (h in s.objects ==> s.objects[h] == objects[ObjectPath(root, h)])
  }

  lemma ObjectWritten(s: State, s': State, root: string, objects: map<string, bytes>, h: bytes, file: bytes)
    requires SameObjects(s, root, objects) && |h| == Crypto.HASH_SIZE && s'.objects == s.objects[h := file]
    ensures SameObjects(s', root, objects[ObjectPath(root, h) := file])
  {
    forall k: bytes | |k| == Crypto.HASH_SIZE && ObjectPath(root, k) == ObjectPath(root, h)
      ensures k == h
    {
      PathInjective(root, k, h);
    }
  }

  lemma ObjectRemoved(s: State, s': State, root: string, objects: map<string, bytes>, h: bytes)
    requires SameObjects(s, root, objects) && |h| == Crypto.HASH_SIZE && s'.objects == s.objects - {h}
    ensures SameObjects(s', root, objects - {ObjectPath(root, h)})
  {
    forall k: bytes | |k| == Crypto.HASH_SIZE && ObjectPath(root, k) == ObjectPath(root, h)
      ensures k == h
    {
      PathInjective(root, k, h);
    }
  }

  lemma UploadTables(s: State, db: R.Tables, p: Pid, cargo: Envelope, n: R.NodeRow)
    requires Agree(s, db) && n.blobHash == cargo.hash
    ensures Agree(Uploaded(s, p, cargo), R.WithNode(db, R.UploadRow(db, cargo), p, n))
  {
  }

  /** An undisturbed upload leaves the tables and the objects of Repo.InsertUpload. */
  lemma UploadsAgree(s: State, db: R.Tables, p: Pid, cargo: Envelope, n: R.NodeRow, root: string,
                     objects: map<string, bytes>)
    requires Sane(s) && p !in s.born && p !in s.procs && Free(s, cargo.hash)
    requires Agree(s, db) && n.blobHash == cargo.hash
    requires SameObjects(s, root, objects) && |cargo.hash| == Crypto.HASH_SIZE
    ensures var s' := Exec(s, UploadSteps(p, cargo));
      && Agree(s', R.WithNode(db, R.UploadRow(db, cargo), p, n))
      && SameObjects(s', root,
           if cargo.hash in db.blobs then objects else objects[ObjectPath(root, cargo.hash) := cargo.file])
  {
    UploadAlone(s, p, cargo);
    UploadTables(s, db, p, cargo, n);
    if cargo.hash !in db.blobs {
      ObjectWritten(s, Uploaded(s, p, cargo), root, objects, cargo.hash, cargo.file);
    }
  }

  lemma DeleteTables(s: State, db: R.Tables, d: Pid)
    requires d in s.procs && s.procs[d].Delete? && s.procs[d].hash in s.rows
    requires Agree(s, db) && s.procs[d].node in db.nodes && db.nodes[s.procs[d].node].blobHash == s.procs[d].hash
    ensures Agree(AfterDelete(s, d), R.WithoutNode(db, s.procs[d].node))
  {
    var db' := R.WithoutNode(db, s.procs[d].node);
    assert AfterDelete(s, d).rows == RowsOf(db');
    assert AfterDelete(s, d).nodes == NodesOf(db');
  }

  /** An undisturbed delete leaves the tables and the objects of Repo.DeleteNode. */
  lemma DeletesAgree(s: State, db: R.Tables, d: Pid, root: string, objects: map<string, bytes>)
    requires Undisturbable(s, d) && Agree(s, db)
    requires s.procs[d].node in db.nodes && db.nodes[s.procs[d].node].blobHash == s.procs[d].hash
    requires SameObjects(s, root, objects) && |s.procs[d].hash| == Crypto.HASH_SIZE
    ensures var s', h := Exec(s, Ticks(d, CommitAt(s, d) + 1)), s.procs[d].hash;
      && Agree(s', R.WithoutNode(db, s.procs[d].node))
      && SameObjects(s', root, if db.blobs[h].refCount == 1 then objects - {ObjectPath(root, h)} else objects)
  {
    DeleteAlone(s, d);
    DeleteTables(s, db, d);
    if Last(s, d) {
      ObjectRemoved(s, AfterDelete(s, d), root, objects, s.procs[d].hash);
    }
  }

  // ----- the methods of the class beside the statements -----

  /** Repo.InsertUpload and the statements of an undisturbed upload, from tables and objects that
      agree, end in tables and objects that agree. */
  method UploadBoth(repo: R.Repo, ghost s: State, u: User, id: Pid, name: bytes, mime: string, now: int,
                    staged: Staged, ghost body: bytes)
    returns (ghost s': State)
    requires repo.Valid() && staged.store == repo.store && staged.Live()
    requires Encloses(repo.store.p, repo.store.kek, staged.envelope, body)
    requires u.id in repo.w.users && repo.w.users[u.id] == u && id !in repo.db.nodes
    requires Agree(s, repo.db) && SameObjects(s, repo.store.root, repo.store.objects)
    requires Sane(s) && id !in s.born && id !in s.procs && Free(s, staged.envelope.hash)
    modifies repo, staged, repo.store`temps, repo.store`objects, repo.store`read
    ensures repo.Valid() && s' == Exec(s, UploadSteps(id, staged.envelope))
    ensures Agree(s', repo.db) && SameObjects(s', repo.store.root, repo.store.objects)
    ensures id in repo.db.nodes
  {
    ghost var e := staged.envelope;
    UploadsAgree(s, repo.db, id, e, R.NodeRow(u.id, e.hash, name, mime, now, now), repo.store.root, repo.store.objects);
    s' := Exec(s, UploadSteps(id, e));
    var r := repo.InsertUpload(u, id, name, mime, now, staged, R.TxOk, body);
  }

  /** Repo.DeleteNode and the statements of an undisturbed delete likewise. */
  method DeleteBoth(repo: R.Repo, ghost s: State, d: Pid, id: Pid, hash: bytes) returns (ghost s': State)
    requires repo.Valid() && id in repo.db.nodes && repo.db.nodes[id].blobHash == hash
    requires Agree(s, repo.db) && SameObjects(s, repo.store.root, repo.store.objects)
    requires Undisturbable(s, d) && s.procs[d].node == id && s.procs[d].hash == hash
    modifies repo, repo.store`objects, repo.store`read
    ensures repo.Valid() && s' == Exec(s, Ticks(d, CommitAt(s, d) + 1))
    ensures Agree(s', repo.db) && SameObjects(s', repo.store.root, repo.store.objects)
    ensures id !in repo.db.nodes
  {
    R.RowIsInfo(repo.w, repo.store.read, repo.db, id);
    DeletesAgree(s, repo.db, d, repo.store.root, repo.store.objects);
    s' := Exec(s, Ticks(d, CommitAt(s, d) + 1));
    var ok := repo.DeleteNode(id, hash, false);
  }
}
