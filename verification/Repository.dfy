/** The file repository of internal/files/files.go: blob, node and grant tables beside the object
    store. Contents are deduplicated by hash, reference-counted and encrypted; every method is
    proved to do to the plain files of the module Vault what was promised. */
module Repository {
  import opened Prelude
  import opened Authz
  import opened Vault
  import opened Crypto
  import opened Storage
  import opened Roles

  datatype BlobRow = BlobRow(size: nat, wrappedDek: bytes, refCount: int)

  datatype NodeRow = NodeRow(
    ownerId: UserId, blobHash: bytes, displayName: bytes, mimeType: string, createdAt: int, updatedAt: int)

  /** The grants table is grouped by node. */
  datatype Tables = Tables(
    blobs: map<bytes, BlobRow>, nodes: map<NodeId, NodeRow>, grants: map<NodeId, map<UserId, Role>>)

  function GrantsOf(db: Tables, id: NodeId): map<UserId, Role> {
    if id in db.grants then db.grants[id] else map[]
  }

  function Referrers(db: Tables, hash: bytes): set<NodeId> {
    set n | n in db.nodes && db.nodes[n].blobHash == hash
  }

  // ----- what the tables and the disk stand for -----

  /** Every blob row has an object that opens under its key. */
  ghost predicate BlobsOpen(read: Reader, blobs: map<bytes, BlobRow>) {
    forall h :: h in blobs ==> BlobOpens(read, h, blobs[h])
  }

  ghost predicate BlobOpens(read: Reader, h: bytes, row: BlobRow) {
    |h| == HASH_SIZE && read(h, row.wrappedDek).Some? && row.size == |read(h, row.wrappedDek).value|
  }

  /** The reference count is the number of nodes that name the blob. */
  ghost predicate CountsExact(db: Tables) {
    forall h :: h in db.blobs ==> 0 < db.blobs[h].refCount == |Referrers(db, h)|
  }

  ghost predicate NodesRefer(w: World, db: Tables) {
    forall n :: n in db.nodes ==> db.nodes[n].ownerId in w.users && db.nodes[n].blobHash in db.blobs
  }

  ghost predicate GrantsLegal(w: World, db: Tables) {
    && db.grants.Keys <= db.nodes.Keys
    && forall n :: n in db.grants ==> GrantRowsLegal(w, db.nodes[n].ownerId, db.grants[n])
  }

  ghost predicate GrantRowsLegal(w: World, owner: UserId, rows: map<UserId, Role>) {
    && rows.Keys <= w.users.Keys
    && owner !in rows
    && forall g :: g in rows ==> rows[g] in {Editor, Viewer}
  }

  ghost predicate Consistent(w: World, read: Reader, db: Tables) {
    BlobsOpen(read, db.blobs) && NodesRefer(w, db) && CountsExact(db) && GrantsLegal(w, db)
  }

  ghost function FileOf(read: Reader, db: Tables, id: NodeId): File
    requires id in db.nodes && db.nodes[id].blobHash in db.blobs
    requires BlobOpens(read, db.nodes[id].blobHash, db.blobs[db.nodes[id].blobHash])
  {
    var n := db.nodes[id];
    File(n.ownerId, n.displayName, n.mimeType, n.createdAt, n.updatedAt,
         read(n.blobHash, db.blobs[n.blobHash].wrappedDek).value, GrantsOf(db, id))
  }

  /** The plain files the tables and the disk stand for. */
  ghost function Meaning(w: World, read: Reader, db: Tables): (fs: Files)
    requires Consistent(w, read, db)
    ensures WellFormed(w, fs)
  {
    map id | id in db.nodes :: FileOf(read, db, id)
  }

  /** Some file holds other bytes with the digest of `body`. */
  ghost predicate Collides(p: Primitives, fs: Files, body: bytes) {
    exists id :: id in fs && p.sha256(fs[id].content) == p.sha256(body) && fs[id].content != body
  }

  // ----- how each write changes the meaning -----

  /** Node `i` and its grants are as they were, and its bytes read the same. */
  ghost predicate Untouched(read: Reader, db: Tables, read': Reader, db': Tables, i: NodeId)
    requires i in db.nodes && i in db'.nodes
    requires db.nodes[i].blobHash in db.blobs && db'.nodes[i].blobHash in db'.blobs
  {
    var h := db.nodes[i].blobHash;
    && db'.nodes[i] == db.nodes[i]
    && GrantsOf(db', i) == GrantsOf(db, i)
    && read'(h, db'.blobs[h].wrappedDek) == read(h, db.blobs[h].wrappedDek)
  }

  lemma MeaningWith(w: World, read: Reader, db: Tables, read': Reader, db': Tables, id: NodeId)
    requires Consistent(w, read, db) && Consistent(w, read', db')
    requires db'.nodes.Keys == db.nodes.Keys + {id}
    requires forall i :: i in db.nodes && i != id ==> Untouched(read, db, read', db', i)
    ensures Meaning(w, read', db') == Meaning(w, read, db)[id := FileOf(read', db', id)]
  {
    forall i | i in db.nodes && i != id
      ensures FileOf(read', db', i) == FileOf(read, db, i)
    {
      assert Untouched(read, db, read', db', i);
    }
  }

  lemma MeaningWithout(w: World, read: Reader, db: Tables, read': Reader, db': Tables, id: NodeId)
    requires Consistent(w, read, db) && Consistent(w, read', db')
    requires db'.nodes.Keys == db.nodes.Keys - {id}
    requires forall i :: i in db'.nodes ==> Untouched(read, db, read', db', i)
    ensures Meaning(w, read', db') == Meaning(w, read, db) - {id}
  {
    forall i | i in db'.nodes
      ensures FileOf(read', db', i) == FileOf(read, db, i)
    {
      assert Untouched(read, db, read', db', i);
    }
  }

  /** Adding a node raises its blob's count by one and no other. */
  lemma CountsWith(db: Tables, db': Tables, id: NodeId, n: NodeRow)
    requires CountsExact(db) && id !in db.nodes && db'.nodes == db.nodes[id := n]
    requires n.blobHash in db'.blobs
    requires forall h :: h in db'.blobs && h != n.blobHash ==> h in db.blobs && db'.blobs[h] == db.blobs[h]
    requires if n.blobHash in db.blobs
             then db'.blobs[n.blobHash].refCount == db.blobs[n.blobHash].refCount + 1
             else db'.blobs[n.blobHash].refCount == 1 && Referrers(db, n.blobHash) == {}
    ensures CountsExact(db')
  {
    assert Referrers(db', n.blobHash) == Referrers(db, n.blobHash) + {id};
    forall h | h in db'.blobs && h != n.blobHash
      ensures Referrers(db', h) == Referrers(db, h)
    {
    }
  }

  /** Removing a node lowers its blob's count by one and no other. */
  lemma CountsWithout(db: Tables, db': Tables, id: NodeId)
    requires CountsExact(db) && id in db.nodes && db'.nodes == db.nodes - {id}
    requires forall h :: h in db'.blobs && h != db.nodes[id].blobHash ==> h in db.blobs && db'.blobs[h] == db.blobs[h]
    requires db.nodes[id].blobHash in db'.blobs ==>
      && db.nodes[id].blobHash in db.blobs
      && 0 < db'.blobs[db.nodes[id].blobHash].refCount == db.blobs[db.nodes[id].blobHash].refCount - 1
    ensures CountsExact(db')
    ensures |Referrers(db', db.nodes[id].blobHash)| == |Referrers(db, db.nodes[id].blobHash)| - 1
  {
    var hash := db.nodes[id].blobHash;
    assert Referrers(db', hash) == Referrers(db, hash) - {id};
    forall h | h in db'.blobs && h != hash
      ensures Referrers(db', h) == Referrers(db, h)
    {
    }
  }

  /** The first upload of a content: new row, object in place, node added. */
  lemma FirstReference(w: World, read: Reader, db: Tables, read': Reader, db': Tables,
                       row: BlobRow, id: NodeId, n: NodeRow)
    requires Consistent(w, read, db) && n.blobHash !in db.blobs
    requires SameElsewhere(read, read', n.blobHash) && BlobOpens(read', n.blobHash, row) && row.refCount == 1
    requires id !in db.nodes && n.ownerId in w.users
    requires db' == db.(blobs := db.blobs[n.blobHash := row], nodes := db.nodes[id := n])
    ensures Consistent(w, read', db')
    ensures Meaning(w, read', db') == Meaning(w, read, db)[id := FileOf(read', db', id)]
    ensures GrantsOf(db', id) == map[]
  {
    NoReferrers(w, db, n.blobHash);
    CountsWith(db, db', id, n);
    assert BlobsOpen(read', db'.blobs);
    MeaningWith(w, read, db, read', db', id);
  }

  lemma NoReferrers(w: World, db: Tables, hash: bytes)
    requires NodesRefer(w, db) && hash !in db.blobs
    ensures Referrers(db, hash) == {}
  {
    forall i | i in db.nodes
      ensures db.nodes[i].blobHash != hash
    {
      assert db.nodes[i].blobHash in db.blobs;
    }
  }

  /** A further upload of a stored content: count up, node added. */
  lemma AnotherReference(w: World, read: Reader, db: Tables, db': Tables, id: NodeId, n: NodeRow)
    requires Consistent(w, read, db) && n.blobHash in db.blobs
    requires id !in db.nodes && n.ownerId in w.users
    requires var b := db.blobs[n.blobHash];
      db' == db.(blobs := db.blobs[n.blobHash := b.(refCount := b.refCount + 1)], nodes := db.nodes[id := n])
    ensures Consistent(w, read, db')
    ensures Meaning(w, read, db') == Meaning(w, read, db)[id := FileOf(read, db', id)]
    ensures GrantsOf(db', id) == map[]
  {
    CountsWith(db, db', id, n);
    assert BlobsOpen(read, db'.blobs);
    MeaningWith(w, read, db, read, db', id);
  }

  /** A stored blob is some file's content; its bytes are the upload's own exactly when no file
      collides with it. */
  lemma StoredBytes(w: World, p: Primitives, read: Reader, db: Tables, body: bytes)
    requires Consistent(w, read, db) && p.sha256(body) in db.blobs
    requires Addressed(p, read)
    ensures read(p.sha256(body), db.blobs[p.sha256(body)].wrappedDek).value == body
       <==> !Collides(p, Meaning(w, read, db), body)
  {
    var hash := p.sha256(body);
    var fs := Meaning(w, read, db);
    var n := SomeReferrer(db, hash);
    assert n in fs && fs[n].content == read(hash, db.blobs[hash].wrappedDek).value;
    forall id | id in fs && p.sha256(fs[id].content) == hash
      ensures fs[id].content == fs[n].content
    {
      assert db.nodes[id].blobHash == hash;
    }
  }

  lemma SomeReferrer(db: Tables, hash: bytes) returns (n: NodeId)
    requires CountsExact(db) && hash in db.blobs
    ensures n in db.nodes && db.nodes[n].blobHash == hash
  {
    var refs := Referrers(db, hash);
    assert db.blobs[hash].refCount == |refs|;
    SomeMember(refs);
    n :| n in refs;
  }

  /** A hash without a row is the hash of no file. */
  lemma NoCollision(w: World, p: Primitives, read: Reader, db: Tables, body: bytes)
    requires Consistent(w, read, db) && p.sha256(body) !in db.blobs && Addressed(p, read)
    ensures !Collides(p, Meaning(w, read, db), body)
  {
    var fs := Meaning(w, read, db);
    forall id | id in fs
      ensures p.sha256(fs[id].content) == db.nodes[id].blobHash
    {
      assert BlobOpens(read, db.nodes[id].blobHash, db.blobs[db.nodes[id].blobHash]);
    }
  }

  /** Bytes that read at an address have it as their digest. */
  ghost predicate Addressed(p: Primitives, read: Reader) {
    forall h, k :: read(h, k).Some? ==> p.sha256(read(h, k).value) == h
  }

  /** `fs'` is `fs` with file `id` added: `f`, with its own bytes unless some file collides. */
  ghost predicate Added(p: Primitives, fs: Files, fs': Files, id: NodeId, f: File) {
    && id in fs' && fs' == fs[id := fs'[id]]
    && fs'[id] == f.(content := fs'[id].content)
    && (fs'[id].content == f.content <==> !Collides(p, fs, f.content))
  }

  /** The rows an upload writes: one more reference, or the first one with its object in place. */
  ghost predicate UploadRows(w: World, p: Primitives, read: Reader, db: Tables, read': Reader,
                             row: BlobRow, id: NodeId, n: NodeRow, body: bytes) {
    && id !in db.nodes && n.ownerId in w.users && n.blobHash == p.sha256(body)
    && if n.blobHash in db.blobs then
         read' == read && row == db.blobs[n.blobHash].(refCount := db.blobs[n.blobHash].refCount + 1)
       else
         && |n.blobHash| == HASH_SIZE && row.size == |body| && row.refCount == 1
         && SameElsewhere(read, read', n.blobHash) && read'(n.blobHash, row.wrappedDek) == Some(body)
  }

  /** What an upload's transaction does to the tables, and what that means. */
  lemma UploadMeans(w: World, p: Primitives, read: Reader, db: Tables, read': Reader, db': Tables,
                    row: BlobRow, id: NodeId, n: NodeRow, body: bytes)
    requires Consistent(w, read, db) && Addressed(p, read)
    requires UploadRows(w, p, read, db, read', row, id, n, body)
    requires db' == db.(blobs := db.blobs[n.blobHash := row], nodes := db.nodes[id := n])
    ensures Consistent(w, read', db')
    ensures Added(p, Meaning(w, read, db), Meaning(w, read', db'), id,
                  File(n.ownerId, n.displayName, n.mimeType, n.createdAt, n.updatedAt, body, map[]))
  {
    if n.blobHash in db.blobs {
      AnotherReference(w, read, db, db', id, n);
      StoredBytes(w, p, read, db, body);
    } else {
      FirstReference(w, read, db, read', db', row, id, n);
      NoCollision(w, p, read, db, body);
    }
  }

  /** Adding the new file is what an accepted upload asks for, unless some file collides. */
  lemma AddedIsNext(w: World, p: Primitives, fs: Files, fs': Files, u: User, op: Op)
    requires w.Valid() && WellFormed(w, fs) && Request(w, fs, u, op) && op.DoUpload?
    requires Accepted(w, op).Some? && |op.body| <= w.maxBytes
    requires Added(p, fs, fs', op.id, NewFile(w, u, op, Accepted(w, op).value))
    ensures fs' == Next(w, fs, u, op) <==> !Collides(p, fs, op.body)
    ensures Reply(w, fs, u, op) == Node(NodeInfo(op.id, w.sanitize(op.filename),
      Accepted(w, op).value, |op.body|, u.username, Owner, op.now, op.now))
  {
    var f := NewFile(w, u, op, Accepted(w, op).value);
    assert Next(w, fs, u, op) == fs[op.id := f];
    if fs' == fs[op.id := f] {
      assert fs'[op.id] == f;
    }
  }

  /** A delete: node and its grants gone, count down, and with the last reference the blob row
      and the object. */
  lemma Dereference(w: World, read: Reader, db: Tables, read': Reader, db': Tables, id: NodeId)
    requires Consistent(w, read, db) && id in db.nodes
    requires db'.nodes == db.nodes - {id} && db'.grants == db.grants - {id}
    requires var hash := db.nodes[id].blobHash;
      var b := db.blobs[hash];
      if b.refCount == 1 then db'.blobs == db.blobs - {hash} && SameElsewhere(read, read', hash)
      else db'.blobs == db.blobs[hash := b.(refCount := b.refCount - 1)] && read' == read
    ensures Consistent(w, read', db')
    ensures Meaning(w, read', db') == Meaning(w, read, db) - {id}
  {
    var hash := db.nodes[id].blobHash;
    CountsWithout(db, db', id);
    forall i | i in db'.nodes
      ensures db'.nodes[i].blobHash in db'.blobs
    {
      if db'.nodes[i].blobHash == hash {
        assert i in Referrers(db', hash);
      }
    }
    assert BlobsOpen(read', db'.blobs);
    MeaningWithout(w, read, db, read', db', id);
  }

  /** A write to a node's own row or to its grants. */
  lemma TouchNode(w: World, read: Reader, db: Tables, db': Tables, id: NodeId)
    requires Consistent(w, read, db) && id in db.nodes && id in db'.nodes
    requires db'.blobs == db.blobs && db'.nodes == db.nodes[id := db'.nodes[id]]
    requires db'.grants == db.grants || (id in db'.grants && db'.grants == db.grants[id := db'.grants[id]])
    requires db'.nodes[id].blobHash == db.nodes[id].blobHash && db'.nodes[id].ownerId == db.nodes[id].ownerId
    requires GrantRowsLegal(w, db.nodes[id].ownerId, GrantsOf(db', id))
    ensures Consistent(w, read, db')
    ensures Meaning(w, read, db') == Meaning(w, read, db)[id := FileOf(read, db', id)]
  {
    forall h | h in db.blobs
      ensures Referrers(db', h) == Referrers(db, h)
    {
    }
    assert GrantsLegal(w, db');
    MeaningWith(w, read, db, read, db', id);
  }

  lemma RenameMeans(w: World, read: Reader, db: Tables, db': Tables, id: NodeId, name: bytes, now: int)
    requires Consistent(w, read, db) && id in db.nodes
    requires db' == db.(nodes := db.nodes[id := db.nodes[id].(displayName := name, updatedAt := now)])
    ensures Consistent(w, read, db')
    ensures var fs := Meaning(w, read, db);
      Meaning(w, read, db') == fs[id := fs[id].(name := name, updated := now)]
  {
    TouchNode(w, read, db, db', id);
  }

  lemma GrantsMean(w: World, read: Reader, db: Tables, db': Tables, id: NodeId, rows: map<UserId, Role>)
    requires Consistent(w, read, db) && id in db.nodes
    requires db' == db.(grants := db.grants[id := rows])
    requires GrantRowsLegal(w, db.nodes[id].ownerId, rows)
    ensures Consistent(w, read, db')
    ensures var fs := Meaning(w, read, db);
      Meaning(w, read, db') == fs[id := fs[id].(grants := rows)]
  {
    TouchNode(w, read, db, db', id);
  }

  /** The tables after an upload's transaction. */
  function WithNode(db: Tables, row: BlobRow, id: NodeId, n: NodeRow): Tables {
    db.(blobs := db.blobs[n.blobHash := row], nodes := db.nodes[id := n])
  }

  /** The blob row an upload leaves: one more reference, or the first. */
  function UploadRow(db: Tables, e: Envelope): BlobRow {
    if e.hash in db.blobs then db.blobs[e.hash].(refCount := db.blobs[e.hash].refCount + 1)
    else BlobRow(e.size, e.wrappedDek, 1)
  }

  /** An object without a blob row is no file's: publishing one and failing to commit its rows
      changes nothing a user can see. */
  lemma OrphanIsInvisible(w: World, read: Reader, read': Reader, db: Tables, hash: bytes)
    requires Consistent(w, read, db) && (read' == read || (hash !in db.blobs && SameElsewhere(read, read', hash)))
    ensures Consistent(w, read', db) && Meaning(w, read', db) == Meaning(w, read, db)
  {
    assert BlobsOpen(read', db.blobs);
    forall i | i in db.nodes
      ensures FileOf(read', db, i) == FileOf(read, db, i)
    {
      assert db.nodes[i].blobHash in db.blobs;
    }
  }

  /** The tables after a delete's transaction. */
  function WithoutNode(db: Tables, id: NodeId): Tables
    requires id in db.nodes && db.nodes[id].blobHash in db.blobs
  {
    var hash := db.nodes[id].blobHash;
    var row := db.blobs[hash];
    Tables(if row.refCount == 1 then db.blobs - {hash} else db.blobs[hash := row.(refCount := row.refCount - 1)],
           db.nodes - {id}, db.grants - {id})
  }

  /** What a delete's transaction and unlink do, and what that means. */
  lemma DeleteMeans(w: World, read: Reader, db: Tables, read': Reader, id: NodeId)
    requires Consistent(w, read, db) && id in db.nodes
    requires var hash := db.nodes[id].blobHash;
      if db.blobs[hash].refCount == 1 then SameElsewhere(read, read', hash) else read' == read
    ensures Consistent(w, read', WithoutNode(db, id))
    ensures Meaning(w, read', WithoutNode(db, id)) == Meaning(w, read, db) - {id}
  {
    Dereference(w, read, db, read', WithoutNode(db, id), id);
  }

  lemma GrantListIs(w: World, f: File, grants: map<string, Role>)
    requires w.Valid() && f.grants.Keys <= w.users.Keys
    requires grants.Keys == set g | g in f.grants :: w.users[g].username
    requires forall g :: g in f.grants ==> grants[w.users[g].username] == f.grants[g]
    ensures grants == GrantList(w, f)
  {
    forall n | n in grants
      ensures w.Knows(n) && w.IdOf(n) in f.grants && grants[n] == f.grants[w.IdOf(n)]
    {
      var g :| g in f.grants && w.users[g].username == n;
      assert w.IdOf(n) == g;
    }
  }

  // ----- the repository -----

  /** The random key and nonces an upload draws. */
  datatype Random = Random(dek: bytes, wrapNonce: bytes, nonce: bytes) {
    predicate Sized() {
      |dek| == DEK_SIZE && |wrapNonce| == |nonce| == NONCE_SIZE
    }
  }

  /** An injected error: in the transaction before the staged object is finalized, at the rename, or
      after; while reading the head; or while staging. */
  datatype TxFault = TxOk | BeforeFinalize | OnRename | AfterFinalize

  /** The rename is reached and succeeds: there is no row yet. */
  predicate Publishes(db: Tables, hash: bytes, fault: TxFault) {
    hash !in db.blobs && (fault == TxOk || fault == AfterFinalize)
  }

  /** The error strikes: there is a rename only while there is no row. */
  predicate Fails(db: Tables, hash: bytes, fault: TxFault) {
    fault == BeforeFinalize || fault == AfterFinalize || (fault == OnRename && hash !in db.blobs)
  }

  datatype UploadFault = NoFault | OnHead | OnStage(stage: StageFault) | OnTx(tx: TxFault)

  /** The error strikes after the head was accepted: while the stream is received, or, once it is
      within the limit, while the temporary file is written or in the transaction. */
  predicate StrikesUpload(p: Primitives, db: Tables, limit: int, body: bytes, fault: UploadFault) {
    match fault
    case OnStage(OnReceive) => true
    case OnStage(OnWrite(part)) => |body| <= limit && part < 3
    case OnStage(stage) => |body| <= limit && stage != StageFault.NoFault
    case OnTx(tx) => |body| <= limit && Fails(db, p.sha256(body), tx)
    case _ => false
  }

  lemma StageStrikes(p: Primitives, db: Tables, limit: int, body: bytes, stage: StageFault)
    ensures StrikesUpload(p, db, limit, body, OnStage(stage)) <==>
      stage == OnReceive
      || (|body| <= limit && stage != StageFault.NoFault && !(stage.OnWrite? && stage.part >= 3))
  {
  }

  /** An injected error in the transaction of a delete, or at its unlink. */
  datatype DeleteFault = DeleteOk | InTransaction | AtUnlink

  lemma TempGone(temps: map<nat, bytes>, t: nat, file: bytes)
    requires t !in temps
    ensures temps[t := file] - {t} == temps
  {
  }

  /** Everything needed to authorize and act on one node. */
  datatype NodeState = NodeState(info: NodeInfo, blobHash: bytes, wrappedDek: bytes, acl: NodeAcl)

  class Repo {
    const w: World
    const store: Store
    var db: Tables
    ghost var plain: Files // the plain files this repository stands for

    ghost predicate Valid()
      reads this, store
    {
      w.Valid() && store.Valid() && Consistent(w, store.read, db) && plain == Meaning(w, store.read, db)
    }

    /** A repository on tables and a store that fit together. */
    constructor (w: World, store: Store, db: Tables)
      requires w.Valid() && store.Valid() && Consistent(w, store.read, db)
      ensures Valid() && plain == Meaning(w, store.read, db) && this.w == w && this.store == store && this.db == db
    {
      this.w, this.store := w, store;
      this.db, plain := db, Meaning(w, store.read, db);
    }

    /** The blob row to write: the first, with its object published, or one more reference, with the
        staged file dropped. */
    method PlaceBlob(staged: Staged, renameFails: bool, ghost body: bytes) returns (row: Option<BlobRow>)
      requires store.Valid() && staged.store == store && staged.Live()
      requires Encloses(store.p, store.kek, staged.envelope, body)
      modifies staged, store`temps, store`objects, store`read
      ensures store.Valid() && staged.done && store.temps == old(store.temps) - {staged.tmpPath}
      ensures row.None? <==> renameFails && staged.envelope.hash !in db.blobs
      ensures row.Some? ==> row.value == UploadRow(db, staged.envelope)
      ensures row.None? || staged.envelope.hash in db.blobs ==>
        store.read == old(store.read) && store.objects == old(store.objects)
      ensures row.Some? && staged.envelope.hash !in db.blobs ==>
        var e := staged.envelope;
        && store.objects == old(store.objects)[ObjectPath(store.root, e.hash) := e.file]
        && SameElsewhere(old(store.read), store.read, e.hash) && store.read(e.hash, e.wrappedDek) == Some(body)
    {
      var e := staged.envelope;
      if e.hash !in db.blobs {
        var failed := staged.Commit(renameFails);
        if failed.Some? { return None; }
        row := Some(BlobRow(e.size, e.wrappedDek, 1));
      } else {
        staged.Abort();
        row := Some(db.blobs[e.hash].(refCount := db.blobs[e.hash].refCount + 1));
      }
    }

    /** First reference: blob row, then the object published, then the node, then the commit.
        Otherwise one more reference and the staged file dropped. A failure rolls the rows back; the
        staged file is live after it only when the failure came before. */
    method InsertUpload(u: User, id: NodeId, name: bytes, mime: string, now: int, staged: Staged,
                        fault: TxFault, ghost body: bytes)
      returns (r: Result<NodeInfo, Error>)
      requires Valid() && staged.store == store && staged.Live()
      requires Encloses(store.p, store.kek, staged.envelope, body)
      requires u.id in w.users && w.users[u.id] == u && id !in db.nodes
      modifies this, staged, store`temps, store`objects, store`read
      ensures Valid()
      ensures staged.done <==> fault != BeforeFinalize
      ensures store.temps == if staged.done then old(store.temps) - {staged.tmpPath} else old(store.temps)
      ensures r.Failure? <==>
        || fault == BeforeFinalize || fault == AfterFinalize
        || (fault == OnRename && staged.envelope.hash !in old(db).blobs)
      ensures r.Failure? ==> r.error == Internal && db == old(db) && plain == old(plain)
      ensures r.Success? ==>
        var e := staged.envelope;
        db == WithNode(old(db), UploadRow(old(db), e), id, NodeRow(u.id, e.hash, name, mime, now, now))
      ensures store.objects == if Publishes(old(db), staged.envelope.hash, fault)
        then old(store.objects)[ObjectPath(store.root, staged.envelope.hash) := staged.envelope.file]
        else old(store.objects)
      ensures r.Success? ==> r.value == NodeInfo(id, name, mime, |body|, u.username, Owner, now, now)
      ensures r.Success? ==> Added(store.p, old(plain), plain, id, File(u.id, name, mime, now, now, body, map[]))
    {
      ghost var read := store.read;
      var hash := staged.envelope.hash;
      if fault == BeforeFinalize { return Failure(Internal); }
      var row := PlaceBlob(staged, fault == OnRename, body);
      if row.None? { return Failure(Internal); }
      if fault == AfterFinalize {
        OrphanIsInvisible(w, read, store.read, db, hash);
        return Failure(Internal);
      }
      InsertRows(read, row.value, id, NodeRow(u.id, hash, name, mime, now, now), body);
      r := Success(NodeInfo(id, name, mime, staged.envelope.size, u.username, Owner, now, now));
    }

    /** The rows of an upload, committed together after the object is in place. */
    method InsertRows(ghost read: Reader, row: BlobRow, id: NodeId, n: NodeRow, ghost body: bytes)
      requires w.Valid() && store.Valid() && Consistent(w, read, db) && plain == Meaning(w, read, db)
      requires Addressed(store.p, read) && UploadRows(w, store.p, read, db, store.read, row, id, n, body)
      modifies this
      ensures Valid() && db == WithNode(old(db), row, id, n)
      ensures Added(store.p, old(plain), plain, id,
                    File(n.ownerId, n.displayName, n.mimeType, n.createdAt, n.updatedAt, body, map[]))
    {
      var tx := db.(blobs := db.blobs[n.blobHash := row]);
      tx := tx.(nodes := tx.nodes[id := n]);
      UploadMeans(w, store.p, read, db, store.read, tx, row, id, n, body);
      db, plain := tx, Meaning(w, store.read, tx);
    }

    /** Records a staged upload; the deferred Abort leaves no temporary file. */
    method Record(u: User, id: NodeId, name: bytes, mime: string, now: int, staged: Staged, fault: TxFault,
                  ghost body: bytes)
      returns (r: Result<NodeInfo, Error>)
      requires Valid() && staged.store == store && staged.Live()
      requires Encloses(store.p, store.kek, staged.envelope, body)
      requires u.id in w.users && w.users[u.id] == u && id !in db.nodes
      modifies this, staged, store`temps, store`objects, store`read
      ensures Valid() && store.temps == old(store.temps) - {staged.tmpPath}
      ensures r.Failure? <==> Fails(old(db), staged.envelope.hash, fault)
      ensures r.Failure? ==> r.error == Internal && plain == old(plain)
      ensures r.Success? ==> r.value == NodeInfo(id, name, mime, |body|, u.username, Owner, now, now)
      ensures r.Success? ==> Added(store.p, old(plain), plain, id, File(u.id, name, mime, now, now, body, map[]))
    {
      r := InsertUpload(u, id, name, mime, now, staged, fault, body);
      staged.Abort();
    }

    /** Stages the content and records it. */
    method Receive(u: User, id: NodeId, name: bytes, mime: string, now: int, body: bytes, rnd: Random,
                   fault: UploadFault)
      returns (r: Result<NodeInfo, Error>)
      requires Valid() && rnd.Sized() && u.id in w.users && w.users[u.id] == u && id !in plain
      modifies this, store
      ensures Valid() && store.temps == old(store.temps)
      ensures r.Failure? ==> r.error in {Error.TooLarge, Internal} && plain == old(plain)
      ensures r == Failure(Error.TooLarge) <==> |body| > w.maxBytes && fault != OnStage(OnReceive)
      ensures r == Failure(Internal) <==> StrikesUpload(store.p, old(db), w.maxBytes, body, fault)
      ensures r.Success? ==>
        && |body| <= w.maxBytes && r.value == NodeInfo(id, name, mime, |body|, u.username, Owner, now, now)
        && Added(store.p, old(plain), plain, id, File(u.id, name, mime, now, now, body, map[]))
    {
      var stage := if fault.OnStage? then fault.stage else StageFault.NoFault;
      StageStrikes(store.p, db, w.maxBytes, body, stage);
      var staged := store.Stage(body, w.maxBytes, rnd.dek, rnd.wrapNonce, rnd.nonce, stage);
      if staged.Failure? {
        return Failure(if staged.error == StageError.TooLarge then Error.TooLarge else Internal);
      }
      var st := staged.value;
      TempGone(old(store.temps), st.tmpPath, st.envelope.file);
      var tx := if fault.OnTx? then fault.tx else TxOk;
      r := Record(u, id, name, mime, now, st, tx, body);
    }

    /** Validates, stages, records. Whatever fails, the temporary file is gone at the end and the
        files are as they were. */
    method Upload(u: User, id: NodeId, filename: string, declared: string, body: bytes, now: int, rnd: Random,
                  fault: UploadFault)
      returns (a: Answer)
      requires Valid() && rnd.Sized()
      requires Request(w, plain, u, DoUpload(id, filename, declared, body, now))
      modifies this, store
      ensures Valid() && store.temps == old(store.temps)
      ensures a == Denied(Internal) ==> fault != UploadFault.NoFault && plain == old(plain)
      ensures a != Denied(Internal) ==>
        var op := DoUpload(id, filename, declared, body, now);
        && a == Reply(w, old(plain), u, op)
        && (plain == Next(w, old(plain), u, op) <==> a.Denied? || !Collides(store.p, old(plain), body))
      ensures var mime := w.validate(declared, if |body| <= 512 then body else body[..512]);
        && (a == Denied(Internal) <==>
              fault == OnHead || (mime.Some? && StrikesUpload(store.p, old(db), w.maxBytes, body, fault)))
        && (a != Denied(Internal) ==>
              && (a == Denied(TypeMismatch) <==> mime.None?)
              && (a == Denied(Error.TooLarge) <==> mime.Some? && |body| > w.maxBytes)
              && (a.Node? <==> mime.Some? && |body| <= w.maxBytes))
        && (a.Node? ==>
              && id in plain && plain == old(plain)[id := plain[id]]
              && plain[id] == File(u.id, w.sanitize(filename), mime.value, now, now, plain[id].content, map[])
              && (plain[id].content == body <==> !Collides(store.p, old(plain), body)))
        && (!a.Node? ==> plain == old(plain))
    {
      ghost var op := DoUpload(id, filename, declared, body, now);
      UploadAnswer(w, plain, u, op);
      var name := w.sanitize(filename);
      if fault == OnHead { return Denied(Internal); }
      var head := if |body| <= 512 then body else body[..512];
      var mime := w.validate(declared, head);
      if mime.None? { return Denied(TypeMismatch); }
      ghost var fs := plain;
      var node := Receive(u, id, name, mime.value, now, body, rnd, fault);
      if node.Failure? { return Denied(node.error); }
      AddedIsNext(w, store.p, fs, plain, u, op);
      a := Node(node.value);
    }

    method ReadGrants(id: NodeId) returns (grants: map<UserId, Role>)
      ensures grants == GrantsOf(db, id)
    {
      var rows := GrantsOf(db, id);
      var todo := rows.Keys;
      grants := map[];
      while todo != {}
        invariant todo <= rows.Keys && grants == rows - todo
        decreases |todo|
      {
        SomeMember(todo);
        var g :| g in todo;
        grants := grants[g := rows[g]];
        todo := todo - {g};
      }
    }

    method LoadNode(u: User, id: NodeId) returns (r: Option<NodeState>)
      requires Valid()
      ensures r.None? <==> id !in plain
      ensures r.Some? ==> StateOf(r.value, u, id)
    {
      if id !in db.nodes { return None; }
      var n := db.nodes[id];
      var b := db.blobs[n.blobHash];
      var grants := ReadGrants(id);
      var role := if u.id == n.ownerId then Owner else if u.id in grants then Grantee(grants[u.id]) else NoRole;
      r := Some(NodeState(
        NodeInfo(id, n.displayName, n.mimeType, b.size, w.users[n.ownerId].username, role, n.createdAt, n.updatedAt),
        n.blobHash, b.wrappedDek, NodeAcl(n.ownerId, grants)));
      RowIsInfo(w, store.read, db, id);
    }

    ghost predicate StateOf(st: NodeState, u: User, id: NodeId)
      reads this, store
      requires Valid()
    {
      && id in plain
      && st.info == Info(w, u, id, plain[id])
      && st.acl == Acl(plain[id])
      && |st.blobHash| == HASH_SIZE && st.blobHash == db.nodes[id].blobHash
      && store.read(st.blobHash, st.wrappedDek) == Some(plain[id].content)
    }

    /** Denial and absence look the same to the caller. */
    method Authorize(u: User, id: NodeId, action: Action) returns (r: Option<NodeState>)
      requires Valid()
      ensures r.Some? <==> Allowed(plain, u, id, action)
      ensures r.Some? ==> StateOf(r.value, u, id)
    {
      r := LoadNode(u, id);
      if r.Some? && !Can(Some(u), r.value.acl, action) { r := None; }
    }

    /** The selected nodes, most recent first; the order of nodes created at the same time is
        the database's. */
    method SelectVisible(u: User) returns (ids: seq<NodeId>)
      ensures forall id :: id in ids <==> id in db.nodes && (db.nodes[id].ownerId == u.id || u.id in GrantsOf(db, id))
      ensures forall i, j :: 0 <= i < j < |ids| ==>
        ids[i] != ids[j] && db.nodes[ids[i]].createdAt >= db.nodes[ids[j]].createdAt
    {
      var nodes := db.nodes;
      var visible := set id | id in db.nodes && (db.nodes[id].ownerId == u.id || u.id in GrantsOf(db, id));
      var todo := visible;
      ids := [];
      while todo != {}
        invariant todo <= visible
        invariant forall id :: id in ids <==> id in visible && id !in todo
        invariant forall i :: 0 <= i < |ids| ==> ids[i] in ids && ids[i] in nodes
        invariant forall i, j :: 0 <= i < j < |ids| ==>
          ids[i] != ids[j] && nodes[ids[i]].createdAt >= nodes[ids[j]].createdAt
        invariant forall i, id :: 0 <= i < |ids| && id in todo ==> nodes[ids[i]].createdAt >= nodes[id].createdAt
        decreases |todo|
      {
        NewestExists(nodes, todo);
        var id :| id in todo && forall k :: k in todo ==> nodes[k].createdAt <= nodes[id].createdAt;
        ids := ids + [id];
        todo := todo - {id};
      }
    }

    /** One row of a listing. */
    method RowOf(u: User, id: NodeId) returns (row: NodeInfo)
      requires Valid() && id in db.nodes && (db.nodes[id].ownerId == u.id || u.id in GrantsOf(db, id))
      ensures id in plain && row == Info(w, u, id, plain[id])
    {
      RowIsInfo(w, store.read, db, id);
      var n := db.nodes[id];
      var role := if n.ownerId == u.id then Owner else Grantee(GrantsOf(db, id)[u.id]);
      row := NodeInfo(id, n.displayName, n.mimeType, db.blobs[n.blobHash].size,
                      w.users[n.ownerId].username, role, n.createdAt, n.updatedAt);
    }

    method ReadRows(u: User, ids: seq<NodeId>) returns (rows: seq<NodeInfo>)
      requires Valid()
      requires forall id :: id in ids ==> id in db.nodes && (db.nodes[id].ownerId == u.id || u.id in GrantsOf(db, id))
      ensures |rows| == |ids|
      ensures forall k :: 0 <= k < |ids| ==> ids[k] in plain && rows[k] == Info(w, u, ids[k], plain[ids[k]])
    {
      rows := [];
      for i := 0 to |ids|
        invariant |rows| == i
        invariant forall k :: 0 <= k < i ==> ids[k] in plain && rows[k] == Info(w, u, ids[k], plain[ids[k]])
      {
        assert ids[i] in ids;
        var row := RowOf(u, ids[i]);
        rows := rows + [row];
      }
    }

    /** Every node the user owns or holds a grant on, most recent first. */
    method List(u: User) returns (rows: seq<NodeInfo>)
      requires Valid() && Request(w, plain, u, DoList)
      ensures Listing(set r | r in rows) == Reply(w, plain, u, DoList)
      ensures forall i, j :: 0 <= i < j < |rows| ==> rows[i].id != rows[j].id && rows[i].created >= rows[j].created
      ensures forall r :: r in rows ==> r.id in plain && Describes(w, u, r.id, plain[r.id], r)
      ensures forall id :: id in plain && (u.id == plain[id].owner || u.id in plain[id].grants) <==>
        exists r :: r in rows && r.id == id
    {
      var ids := SelectVisible(u);
      rows := ReadRows(u, ids);
      SelectedAreViewable(w, store.read, db, u, ids);
      RowsAreListing(w, u, plain, ids, rows);
      ListAnswer(w, plain, u);
      assert forall r :: r in rows <==> r in Reply(w, plain, u, DoList).nodes;
    }

    /** The grants of a node by username. */
    method SelectGrants(id: NodeId) returns (grants: map<string, Role>)
      requires w.Valid() && GrantsOf(db, id).Keys <= w.users.Keys
      ensures grants.Keys == set g | g in GrantsOf(db, id) :: w.users[g].username
      ensures forall g :: g in GrantsOf(db, id) ==> grants[w.users[g].username] == GrantsOf(db, id)[g]
    {
      var rows := GrantsOf(db, id);
      var todo := rows.Keys;
      grants := map[];
      while todo != {}
        invariant todo <= rows.Keys
        invariant grants.Keys == set g | g in rows && g !in todo :: w.users[g].username
        invariant forall g :: g in rows && g !in todo ==> grants[w.users[g].username] == rows[g]
        decreases |todo|
      {
        SomeMember(todo);
        var g :| g in todo;
        grants := grants[w.users[g].username := rows[g]];
        todo := todo - {g};
      }
    }

    /** Metadata, and the grants when the caller may share. */
    method Stat(u: User, id: NodeId) returns (a: Answer)
      requires Valid() && Request(w, plain, u, DoStat(id))
      ensures a == Reply(w, plain, u, DoStat(id))
      ensures if id in plain && (u.id == plain[id].owner || u.id in plain[id].grants) then
                && a.Details? && Describes(w, u, id, plain[id], a.info) && (a.grants.Some? <==> u.id == plain[id].owner)
                && (a.grants.Some? ==> ListsGrants(w, plain[id], a.grants.value))
              else a == Denied(NotFound)
    {
      StatAnswer(w, plain, u, id);
      var st := Authorize(u, id, Action.View);
      if st.None? { return Denied(NotFound); }
      StatReply(w, plain, u, id);
      if !Can(Some(u), st.value.acl, Action.Share) { return Details(st.value.info, None); }
      var grants := SelectGrants(id);
      GrantListIs(w, plain[id], grants);
      a := Details(st.value.info, Some(grants));
    }

    method Download(u: User, id: NodeId) returns (a: Answer)
      requires Valid() && Request(w, plain, u, DoDownload(id))
      ensures a == Reply(w, plain, u, DoDownload(id))
      ensures if id in plain && (u.id == plain[id].owner || u.id in plain[id].grants) then
                && a.Content? && a.content == plain[id].content && Describes(w, u, id, plain[id], a.info)
                && id in db.nodes && store.p.sha256(a.content) == db.nodes[id].blobHash
              else a == Denied(NotFound)
    {
      DownloadAnswer(w, plain, u, id);
      var st := Authorize(u, id, Action.Download);
      if st.None? { return Denied(NotFound); }
      var plain := store.Open(st.value.blobHash, st.value.wrappedDek, false);
      if plain.Failure? { return Denied(Integrity); }
      a := Content(st.value.info, plain.value);
    }

    method WriteName(id: NodeId, name: bytes, now: int)
      requires Valid() && id in db.nodes
      modifies this
      ensures Valid() && plain == old(plain)[id := old(plain)[id].(name := name, updated := now)]
    {
      var tx := db.(nodes := db.nodes[id := db.nodes[id].(displayName := name, updatedAt := now)]);
      RenameMeans(w, store.read, db, tx, id, name, now);
      db, plain := tx, Meaning(w, store.read, tx);
    }

    method Rename(u: User, id: NodeId, newName: string, now: int) returns (a: Answer)
      requires Valid() && Request(w, plain, u, DoRename(id, newName, now))
      modifies this
      ensures Valid()
      ensures var op := DoRename(id, newName, now);
        a == Reply(w, old(plain), u, op) && plain == Next(w, old(plain), u, op)
      ensures var fs := old(plain);
        if id in fs && (u.id == fs[id].owner || (u.id in fs[id].grants && fs[id].grants[u.id] == Editor)) then
          && plain == fs[id := fs[id].(name := w.sanitize(newName), updated := now)]
          && a.Node? && Describes(w, u, id, plain[id], a.info)
        else a == Denied(NotFound) && plain == fs
    {
      RenameAnswer(w, plain, u, id, newName, now);
      var st := Authorize(u, id, Action.Rename);
      if st.None? { return Denied(NotFound); }
      var name := w.sanitize(newName);
      AuthorizedStep(w, plain, u, DoRename(id, newName, now));
      WriteName(id, name, now);
      a := Node(st.value.info.(name := name, updated := now));
    }

    /** Node row and its grants, then the count, then the blob row at zero: one transaction. */
    method DeleteRows(id: NodeId, hash: bytes) returns (refs: int)
      requires id in db.nodes && db.nodes[id].blobHash == hash && hash in db.blobs
      modifies this`db
      ensures refs == old(db).blobs[hash].refCount - 1
      ensures db == WithoutNode(old(db), id)
    {
      var tx := db.(nodes := db.nodes - {id}, grants := db.grants - {id});
      refs := tx.blobs[hash].refCount - 1;
      tx := tx.(blobs := tx.blobs[hash := tx.blobs[hash].(refCount := refs)]);
      if refs == 0 {
        tx := tx.(blobs := tx.blobs - {hash});
      }
      db := tx;
    }

    /** The object goes only after the rows are committed. */
    method DeleteNode(id: NodeId, hash: bytes, unlinkFails: bool) returns (ok: bool)
      requires Valid() && id in db.nodes && db.nodes[id].blobHash == hash
      modifies this, store`objects, store`read
      ensures Valid() && db == WithoutNode(old(db), id) && plain == old(plain) - {id}
      ensures ok <==> !(unlinkFails && old(db).blobs[hash].refCount == 1)
      ensures store.objects == if old(db).blobs[hash].refCount == 1 && ok
        then old(store.objects) - {ObjectPath(store.root, hash)} else old(store.objects)
    {
      ghost var read, before := store.read, db;
      assert store.OnDisk().Read(hash, db.blobs[hash].wrappedDek) == store.read(hash, db.blobs[hash].wrappedDek);
      RowIsInfo(w, store.read, db, id);
      var refs := DeleteRows(id, hash);
      ok := true;
      if refs == 0 {
        ok := store.Remove(hash, unlinkFails);
      }
      DeleteMeans(w, read, before, store.read, id);
      plain := Meaning(w, store.read, db);
    }

    /** Refused like the plain map; an error in the transaction undoes it, and an error at the
        unlink is reported with the file gone. */
    method Delete(u: User, id: NodeId, fault: DeleteFault) returns (a: Answer)
      requires Valid() && Request(w, plain, u, DoDelete(id))
      modifies this, store`objects, store`read
      ensures Valid()
      ensures a == Denied(Internal) || a == Reply(w, old(plain), u, DoDelete(id))
      ensures fault == DeleteOk ==> a != Denied(Internal)
      ensures plain == if a == Denied(Internal) && fault == InTransaction
                       then old(plain) else Next(w, old(plain), u, DoDelete(id))
      ensures a == Denied(NotFound) <==> !(id in old(plain) && u.id == old(plain)[id].owner)
      ensures plain == if id in old(plain) && u.id == old(plain)[id].owner && fault != InTransaction
                       then old(plain) - {id} else old(plain)
      ensures id in old(plain) && u.id == old(plain)[id].owner ==>
        var row := old(db).blobs[old(db).nodes[id].blobHash];
        (a == Denied(Internal) <==> fault == InTransaction || (fault == AtUnlink && row.refCount == 1))
      ensures a == Done ==> id !in plain
    {
      DeleteAnswer(w, plain, u, id);
      var st := Authorize(u, id, Action.Delete);
      if st.None? { return Denied(NotFound); }
      if fault == InTransaction { return Denied(Internal); }
      AuthorizedStep(w, plain, u, DoDelete(id));
      var ok := DeleteNode(id, st.value.blobHash, fault == AtUnlink);
      a := if ok then Done else Denied(Internal);
    }

    method FindUser(name: string) returns (r: Option<UserId>)
      requires Valid()
      ensures r == if w.Knows(name) then Some(w.IdOf(name)) else None
    {
      if id :| id in w.users && w.users[id].username == name {
        r := Some(id);
      } else {
        r := None;
      }
    }

    method WriteGrants(id: NodeId, rows: map<UserId, Role>)
      requires Valid() && id in db.nodes && GrantRowsLegal(w, db.nodes[id].ownerId, rows)
      modifies this
      ensures Valid() && plain == old(plain)[id := old(plain)[id].(grants := rows)]
    {
      var tx := db.(grants := db.grants[id := rows]);
      GrantsMean(w, store.read, db, tx, id, rows);
      db, plain := tx, Meaning(w, store.read, tx);
    }

    /** The part of Share after the authorization. */
    method GrantTo(u: User, id: NodeId, grantee: string, role: Role, owner: UserId) returns (a: Answer)
      requires Valid() && Request(w, plain, u, DoShare(id, grantee, role)) && role in {Editor, Viewer}
      requires Allowed(plain, u, id, Action.Share) && owner == plain[id].owner
      modifies this
      ensures Valid()
      ensures match Named(w, DoShare(id, grantee, role), old(plain)[id])
        case Failure(e) => a == Denied(e) && plain == old(plain)
        case Success(g) =>
          var f := old(plain)[id];
          a == Done && plain == old(plain)[id := f.(grants := f.grants[g := role])]
    {
      var g := FindUser(grantee);
      if g.None? { return Denied(NoSuchUser); }
      if g.value == owner { return Denied(GrantToOwner); }
      WriteGrants(id, GrantsOf(db, id)[g.value := role]);
      a := Done;
    }

    method Share(u: User, id: NodeId, grantee: string, role: Role) returns (a: Answer)
      requires Valid() && Request(w, plain, u, DoShare(id, grantee, role))
      modifies this
      ensures Valid()
      ensures var op := DoShare(id, grantee, role);
        a == Reply(w, old(plain), u, op) && plain == Next(w, old(plain), u, op)
      ensures a == Done ==> id in old(plain) && u.id == old(plain)[id].owner && (role == Editor || role == Viewer)
      ensures forall g :: a == Done && g in w.users && w.users[g].username == grantee ==>
        var f := old(plain)[id];
        g != f.owner && plain == old(plain)[id := f.(grants := f.grants[g := role])]
      ensures a != Done ==> plain == old(plain)
    {
      ShareAnswer(w, plain, u, id, grantee, role);
      if role != Editor && role != Viewer { return Denied(BadRole); }
      var st := Authorize(u, id, Action.Share);
      if st.None? { return Denied(NotFound); }
      NamedStep(w, plain, u, DoShare(id, grantee, role));
      a := GrantTo(u, id, grantee, role, st.value.acl.ownerId);
    }

    method Revoke(u: User, id: NodeId, grantee: string) returns (a: Answer)
      requires Valid() && Request(w, plain, u, DoRevoke(id, grantee))
      modifies this
      ensures Valid()
      ensures var op := DoRevoke(id, grantee);
        a == Reply(w, old(plain), u, op) && plain == Next(w, old(plain), u, op)
      ensures a == Done ==> id in old(plain) && u.id == old(plain)[id].owner
      ensures forall g :: a == Done && g in w.users && w.users[g].username == grantee ==>
        plain == old(plain)[id := old(plain)[id].(grants := old(plain)[id].grants - {g})]
      ensures a != Done ==> plain == old(plain)
    {
      RevokeAnswer(w, plain, u, id, grantee);
      var st := Authorize(u, id, Action.Share);
      if st.None? { return Denied(NotFound); }
      NamedStep(w, plain, u, DoRevoke(id, grantee));
      var g := FindUser(grantee);
      if g.None? || g.value !in GrantsOf(db, id) { return Denied(NoSuchGrant); }
      WriteGrants(id, GrantsOf(db, id) - {g.value});
      a := Done;
    }
  }

  // ----- whole runs -----

  /** SHA-256 has no collision among these contents. */
  ghost predicate NoCollisions(p: Primitives, bodies: set<bytes>) {
    forall x, y :: x in bodies && y in bodies && p.sha256(x) == p.sha256(y) ==> x == y
  }

  /** The errors injected into a request, if it is an upload or a delete. */
  datatype Fault = Fault(upload: UploadFault, del: DeleteFault)

  const NO_FAULT := Fault(UploadFault.NoFault, DeleteOk)

  predicate CanFail(op: Op, fault: Fault) {
    (op.DoUpload? && fault.upload != UploadFault.NoFault) || (op.DoDelete? && fault.del != DeleteOk)
  }

  /** Answered properly, or deleted with an error at the unlink. */
  predicate TookPlace(op: Op, fault: Fault, a: Answer) {
    a != Denied(Internal) || (op.DoDelete? && fault.del == AtUnlink)
  }

  method Perform(repo: Repo, u: User, op: Op, rnd: Random, fault: Fault) returns (a: Answer)
    requires repo.Valid() && Request(repo.w, repo.plain, u, op) && rnd.Sized()
    modifies repo, repo.store
    ensures repo.Valid()
    ensures a == Denied(Internal) || a == Reply(repo.w, old(repo.plain), u, op)
    ensures a == Denied(Internal) ==> CanFail(op, fault)
    ensures !op.DoUpload? || !Collides(repo.store.p, old(repo.plain), op.body) ==>
      repo.plain == if TookPlace(op, fault, a) then Next(repo.w, old(repo.plain), u, op) else old(repo.plain)
  {
    match op
    case DoUpload(id, filename, declared, body, now) =>
      a := repo.Upload(u, id, filename, declared, body, now, rnd, fault.upload);
    case DoDelete(id) => a := repo.Delete(u, id, fault.del);
    case _ =>
      NeverInternal(repo.w, repo.plain, u, op);
      a := PerformOther(repo, u, op);
  }

  /** The requests that change nothing. */
  method PerformRead(repo: Repo, u: User, op: Op) returns (a: Answer)
    requires repo.Valid() && Request(repo.w, repo.plain, u, op) && (op.DoList? || op.DoStat? || op.DoDownload?)
    ensures a == Reply(repo.w, repo.plain, u, op) && repo.plain == Next(repo.w, repo.plain, u, op)
  {
    match op
    case DoList =>
      var rows := repo.List(u);
      a := Listing(set r | r in rows);
    case DoStat(id) => a := repo.Stat(u, id);
    case DoDownload(id) => a := repo.Download(u, id);
  }

  /** The requests without injected errors. */
  method PerformOther(repo: Repo, u: User, op: Op) returns (a: Answer)
    requires repo.Valid() && Request(repo.w, repo.plain, u, op) && !op.DoUpload? && !op.DoDelete?
    modifies repo
    ensures repo.Valid()
    ensures a == Reply(repo.w, old(repo.plain), u, op)
    ensures repo.plain == Next(repo.w, old(repo.plain), u, op)
  {
    match op
    case DoList => a := PerformRead(repo, u, op);
    case DoStat(_) => a := PerformRead(repo, u, op);
    case DoDownload(_) => a := PerformRead(repo, u, op);
    case DoRename(id, newName, now) => a := repo.Rename(u, id, newName, now);
    case DoShare(id, grantee, role) => a := repo.Share(u, id, grantee, role);
    case DoRevoke(id, grantee) => a := repo.Revoke(u, id, grantee);
  }

  lemma NeverInternal(w: World, fs: Files, u: User, op: Op)
    requires w.Valid() && WellFormed(w, fs) && Request(w, fs, u, op)
    ensures Reply(w, fs, u, op) != Denied(Internal)
  {
  }

  /** Only requests that can fail did not take place. */
  ghost predicate Possible(script: seq<Call>, faults: seq<Fault>, took: seq<bool>) {
    && |took| == |faults| == |script|
    && forall i :: 0 <= i < |script| && !took[i] ==> CanFail(script[i].op, faults[i])
  }

  /** Whichever of the faulty requests fail, the others are made by known users with fresh upload
      ids. With ids that never come up twice this is always so: FreshIsLegal. */
  ghost predicate LegalHowever(w: World, fs: Files, script: seq<Call>, faults: seq<Fault>)
    requires w.Valid() && WellFormed(w, fs)
  {
    |faults| == |script| && forall took :: Possible(script, faults, took) ==> Legal(w, fs, Kept(script, took))
  }

  /** `took`, and all the calls after it. */
  function Padded(took: seq<bool>, n: nat): (all: seq<bool>)
    requires |took| <= n
    ensures |all| == n && all[..|took|] == took && forall i :: |took| <= i < n ==> all[i]
  {
    took + seq(n - |took|, _ => true)
  }

  lemma PaddedIsPossible(script: seq<Call>, faults: seq<Fault>, took: seq<bool>)
    requires |took| <= |script| == |faults| && Possible(script[..|took|], faults[..|took|], took)
    ensures Possible(script, faults, Padded(took, |script|))
  {
    var i, all := |took|, Padded(took, |script|);
    forall k | 0 <= k < |script| && !all[k]
      ensures CanFail(script[k].op, faults[k])
    {
      assert all[..i][k] == took[k] && script[..i][k] == script[k] && faults[..i][k] == faults[k];
    }
  }

  lemma LegalUpTo(w: World, fs: Files, whole: seq<Call>, kept: seq<Call>, c: Call)
    requires w.Valid() && WellFormed(w, fs) && Legal(w, fs, whole) && kept + [c] <= whole
    ensures Legal(w, fs, kept) && Request(w, After(w, fs, kept), c.u, c.op) && Legal(w, fs, kept + [c])
  {
    assert whole[..|kept|] == kept && whole[..|kept| + 1] == kept + [c] && whole[|kept|] == c;
    LegalPrefix(w, fs, whole, |kept|);
    LegalPrefix(w, fs, whole, |kept| + 1);
  }

  /** The next call is made in a state it may be made in. */
  lemma NextIsLegal(w: World, fs: Files, script: seq<Call>, faults: seq<Fault>, took: seq<bool>)
    requires w.Valid() && WellFormed(w, fs) && LegalHowever(w, fs, script, faults)
    requires |took| < |script| && Possible(script[..|took|], faults[..|took|], took)
    ensures var kept, c := Kept(script[..|took|], took), script[|took|];
      Legal(w, fs, kept) && Request(w, After(w, fs, kept), c.u, c.op) && Legal(w, fs, kept + [c])
  {
    var i, all := |took|, Padded(took, |script|);
    PaddedIsPossible(script, faults, took);
    KeptSplits(script, all, i);
    KeptSplits(script, all, i + 1);
    LegalUpTo(w, fs, Kept(script, all), Kept(script[..i], took), script[i]);
  }

  /** The call after `took` others was answered as the plain map answers it after those of them
      that took place, or failed. */
  ghost predicate Answered(w: World, fs: Files, script: seq<Call>, faults: seq<Fault>, took: seq<bool>,
                           answers: seq<Answer>, i: nat)
    requires w.Valid() && WellFormed(w, fs) && |took| == |answers| && i < |answers| <= |script| == |faults|
  {
    var kept, c := Kept(script[..i], took[..i]), script[i];
    Legal(w, fs, kept) && Request(w, After(w, fs, kept), c.u, c.op)
    && AnsweredFrom(w, After(w, fs, kept), c, faults[i], took[i], answers[i])
  }

  /** Answered like the plain map, or failed because of an injected error. */
  ghost predicate AnsweredFrom(w: World, fs: Files, c: Call, fault: Fault, took: bool, a: Answer)
    requires w.Valid() && WellFormed(w, fs) && Request(w, fs, c.u, c.op)
  {
    && (took <==> TookPlace(c.op, fault, a))
    && (a == Denied(Internal) ==> CanFail(c.op, fault))
    && (a == Denied(Internal) || a == Reply(w, fs, c.u, c.op))
  }

  lemma NoneCollides(w: World, p: Primitives, fs: Files, script: seq<Call>, took: seq<bool>, i: nat)
    requires w.Valid() && WellFormed(w, fs) && NoCollisions(p, Bodies(fs, script))
    requires i == |took| < |script| && Legal(w, fs, Kept(script[..i], took)) && script[i].op.DoUpload?
    ensures !Collides(p, After(w, fs, Kept(script[..i], took)), script[i].op.body)
  {
    var kept := Kept(script[..i], took);
    var now := After(w, fs, kept);
    assert kept[..|kept|] == kept && script[i] in script;
    forall id | id in now
      ensures now[id].content in Bodies(fs, script)
    {
      ContentsFrom(w, fs, kept, |kept|, id);
      forall c | c in kept ensures c in script { KeptAreCalls(script[..i], took, c); }
    }
  }

  /** `plain` is what the calls that took place make of `fs`. */
  ghost predicate Stands(w: World, fs: Files, script: seq<Call>, took: seq<bool>, plain: Files)
    requires w.Valid() && WellFormed(w, fs) && |took| == |script|
  {
    Legal(w, fs, Kept(script, took)) && plain == After(w, fs, Kept(script, took))
  }

  /** Part of a run: the calls answered so far, and what the repository stands for. */
  ghost predicate SoFar(w: World, fs: Files, script: seq<Call>, faults: seq<Fault>, took: seq<bool>,
                        answers: seq<Answer>, plain: Files)
    requires w.Valid() && WellFormed(w, fs)
  {
    && |took| == |answers| <= |script| == |faults|
    && AllAnswered(w, fs, script, faults, took, answers)
    && Stands(w, fs, script[..|took|], took, plain)
  }

  ghost predicate AllAnswered(w: World, fs: Files, script: seq<Call>, faults: seq<Fault>, took: seq<bool>,
                              answers: seq<Answer>)
    requires w.Valid() && WellFormed(w, fs) && |took| == |answers| <= |script| == |faults|
  {
    forall j :: 0 <= j < |took| ==> Answered(w, fs, script, faults, took, answers, j)
  }

  lemma AnsweredIsPossible(w: World, fs: Files, script: seq<Call>, faults: seq<Fault>, took: seq<bool>,
                           answers: seq<Answer>)
    requires w.Valid() && WellFormed(w, fs) && |took| == |answers| <= |script| == |faults|
    requires AllAnswered(w, fs, script, faults, took, answers)
    ensures Possible(script[..|took|], faults[..|took|], took)
  {
    forall j | 0 <= j < |took| && !took[j]
      ensures CanFail(script[j].op, faults[j])
    {
      assert Answered(w, fs, script, faults, took, answers, j);
    }
  }

  lemma NextCall(w: World, p: Primitives, fs: Files, script: seq<Call>, faults: seq<Fault>, took: seq<bool>,
                 answers: seq<Answer>, plain: Files)
    requires w.Valid() && WellFormed(w, fs) && LegalHowever(w, fs, script, faults)
    requires NoCollisions(p, Bodies(fs, script))
    requires SoFar(w, fs, script, faults, took, answers, plain) && |took| < |script|
    ensures var c := script[|took|];
      Request(w, plain, c.u, c.op) && (c.op.DoUpload? ==> !Collides(p, plain, c.op.body))
  {
    AnsweredIsPossible(w, fs, script, faults, took, answers);
    NextIsLegal(w, fs, script, faults, took);
    if script[|took|].op.DoUpload? { NoneCollides(w, p, fs, script, took, |took|); }
  }

  /** The call at the end of `script` took place, or did not. */
  lemma OneMoreKept(w: World, fs: Files, script: seq<Call>, took: seq<bool>, c: Call, t: bool)
    requires w.Valid() && WellFormed(w, fs) && |took| == |script|
    requires var kept := Kept(script, took);
      Legal(w, fs, kept) && Legal(w, fs, kept + [c]) && Request(w, After(w, fs, kept), c.u, c.op)
    ensures var kept, kept' := Kept(script, took), Kept(script + [c], took + [t]);
      && kept' == (if t then kept + [c] else kept) && Legal(w, fs, kept')
      && After(w, fs, kept') == (if t then Next(w, After(w, fs, kept), c.u, c.op) else After(w, fs, kept))
  {
    var kept, n := Kept(script, took), |script|;
    assert (script + [c])[..n] == script && (took + [t])[..n] == took;
    assert (kept + [c])[..|kept|] == kept;
  }

  lemma AnsweredStays(w: World, fs: Files, script: seq<Call>, faults: seq<Fault>, took: seq<bool>,
                      answers: seq<Answer>, t: bool, a: Answer, j: nat)
    requires w.Valid() && WellFormed(w, fs) && j < |took| == |answers| < |script| == |faults|
    requires Answered(w, fs, script, faults, took, answers, j)
    ensures Answered(w, fs, script, faults, took + [t], answers + [a], j)
  {
    assert (took + [t])[..j] == took[..j];
  }

  lemma LastAnswered(w: World, fs: Files, script: seq<Call>, faults: seq<Fault>, took: seq<bool>,
                     answers: seq<Answer>, t: bool, a: Answer)
    requires w.Valid() && WellFormed(w, fs) && |took| == |answers| < |script| == |faults|
    requires var i, kept, c := |took|, Kept(script[..|took|], took), script[|took|];
      && Legal(w, fs, kept) && Request(w, After(w, fs, kept), c.u, c.op)
      && AnsweredFrom(w, After(w, fs, kept), c, faults[i], t, a)
    ensures Answered(w, fs, script, faults, took + [t], answers + [a], |took|)
  {
    assert (took + [t])[..|took|] == took;
  }

  lemma OneMoreAnswered(w: World, fs: Files, script: seq<Call>, faults: seq<Fault>, took: seq<bool>,
                        answers: seq<Answer>, t: bool, a: Answer)
    requires w.Valid() && WellFormed(w, fs) && |took| == |answers| < |script| == |faults|
    requires AllAnswered(w, fs, script, faults, took, answers)
    requires var i, kept, c := |took|, Kept(script[..|took|], took), script[|took|];
      && Legal(w, fs, kept) && Request(w, After(w, fs, kept), c.u, c.op)
      && AnsweredFrom(w, After(w, fs, kept), c, faults[i], t, a)
    ensures AllAnswered(w, fs, script, faults, took + [t], answers + [a])
  {
    forall j | 0 <= j < |took|
      ensures Answered(w, fs, script, faults, took + [t], answers + [a], j)
    {
      AnsweredStays(w, fs, script, faults, took, answers, t, a, j);
    }
    LastAnswered(w, fs, script, faults, took, answers, t, a);
  }

  lemma OneMoreStands(w: World, fs: Files, script: seq<Call>, took: seq<bool>, plain: Files, c: Call, t: bool,
                      plain': Files)
    requires w.Valid() && WellFormed(w, fs) && |took| == |script| && Stands(w, fs, script, took, plain)
    requires Legal(w, fs, Kept(script, took) + [c]) && Request(w, plain, c.u, c.op)
    requires plain' == if t then Next(w, plain, c.u, c.op) else plain
    ensures Stands(w, fs, script + [c], took + [t], plain')
  {
    OneMoreKept(w, fs, script, took, c, t);
  }

  lemma OneMoreAnswer(w: World, fs: Files, script: seq<Call>, faults: seq<Fault>, took: seq<bool>,
                      answers: seq<Answer>, plain: Files, t: bool, a: Answer, plain': Files)
    requires w.Valid() && WellFormed(w, fs) && LegalHowever(w, fs, script, faults)
    requires SoFar(w, fs, script, faults, took, answers, plain) && |took| < |script|
    requires var c := script[|took|];
      && Request(w, plain, c.u, c.op) && AnsweredFrom(w, plain, c, faults[|took|], t, a)
      && plain' == if t then Next(w, plain, c.u, c.op) else plain
    ensures SoFar(w, fs, script, faults, took + [t], answers + [a], plain')
  {
    var i := |took|;
    AnsweredIsPossible(w, fs, script, faults, took, answers);
    NextIsLegal(w, fs, script, faults, took);
    OneMoreStands(w, fs, script[..i], took, plain, script[i], t, plain');
    TakeOneMore(script, i);
    OneMoreAnswered(w, fs, script, faults, took, answers, t, a);
  }

  /** In every sequential run, whichever uploads and deletes meet an error, the repository answers
      each request like the plain map of files or reports the error, and stands for the plain map
      after the requests that took place, as long as no two of the contents in play collide. */
  method RunWithFaults(repo: Repo, script: seq<Call>, rnds: seq<Random>, faults: seq<Fault>)
    returns (answers: seq<Answer>, ghost took: seq<bool>)
    requires repo.Valid() && LegalHowever(repo.w, repo.plain, script, faults)
    requires |rnds| == |script| && forall i :: 0 <= i < |rnds| ==> rnds[i].Sized()
    requires NoCollisions(repo.store.p, Bodies(repo.plain, script))
    modifies repo, repo.store
    ensures repo.Valid() && |answers| == |took| == |script|
    ensures forall i :: 0 <= i < |script| ==> Answered(repo.w, old(repo.plain), script, faults, took, answers, i)
    ensures Legal(repo.w, old(repo.plain), Kept(script, took))
    ensures repo.plain == After(repo.w, old(repo.plain), Kept(script, took))
  {
    ghost var w, fs := repo.w, repo.plain;
    answers, took := [], [];
    for i := 0 to |script|
      invariant repo.Valid() && |took| == i && SoFar(w, fs, script, faults, took, answers, repo.plain)
    {
      ghost var before := repo.plain;
      NextCall(w, repo.store.p, fs, script, faults, took, answers, before);
      var a := Perform(repo, script[i].u, script[i].op, rnds[i], faults[i]);
      ghost var t := TookPlace(script[i].op, faults[i], a);
      OneMoreAnswer(w, fs, script, faults, took, answers, before, t, a, repo.plain);
      answers, took := answers + [a], took + [t];
    }
    assert script[..|script|] == script;
  }

  /** In every sequential run without errors the repository answers like the plain map of files, and
      stands for it afterwards. */
  method Run(repo: Repo, script: seq<Call>, rnds: seq<Random>) returns (answers: seq<Answer>)
    requires repo.Valid() && Legal(repo.w, repo.plain, script)
    requires |rnds| == |script| && forall i :: 0 <= i < |rnds| ==> rnds[i].Sized()
    requires NoCollisions(repo.store.p, Bodies(repo.plain, script))
    modifies repo, repo.store
    ensures repo.Valid()
    ensures answers == Replies(repo.w, old(repo.plain), script)
    ensures repo.plain == After(repo.w, old(repo.plain), script)
  {
    ghost var w, fs := repo.w, repo.plain;
    var faults := seq(|script|, _ => NO_FAULT);
    forall took | Possible(script, faults, took)
      ensures Kept(script, took) == script
    {
      AllKept(script, took);
    }
    ghost var took;
    answers, took := RunWithFaults(repo, script, rnds, faults);
    NothingFailed(w, fs, script, faults, took, answers);
  }

  lemma NothingFailed(w: World, fs: Files, script: seq<Call>, faults: seq<Fault>, took: seq<bool>,
                      answers: seq<Answer>)
    requires w.Valid() && WellFormed(w, fs) && Legal(w, fs, script)
    requires |faults| == |took| == |answers| == |script|
    requires forall i :: 0 <= i < |script| ==> !CanFail(script[i].op, faults[i])
    requires forall i :: 0 <= i < |script| ==> Answered(w, fs, script, faults, took, answers, i)
    ensures Kept(script, took) == script && answers == Replies(w, fs, script)
  {
    forall i | 0 <= i < |script|
      ensures took[i]
    {
      assert Answered(w, fs, script, faults, took, answers, i);
    }
    AllKept(script, took);
    forall i | 0 <= i < |script|
      ensures answers[i] == Replies(w, fs, script)[i]
    {
      assert Answered(w, fs, script, faults, took, answers, i);
      AllKept(script[..i], took[..i]);
      ReplyAt(w, fs, script, i);
    }
  }

  /** A row of List is what the plain file shows. */
  lemma RowIsInfo(w: World, read: Reader, db: Tables, id: NodeId)
    requires Consistent(w, read, db) && id in db.nodes
    ensures Meaning(w, read, db)[id] == FileOf(read, db, id) && |db.nodes[id].blobHash| == HASH_SIZE
    ensures db.blobs[db.nodes[id].blobHash].size == |FileOf(read, db, id).content|
  {
    assert BlobOpens(read, db.nodes[id].blobHash, db.blobs[db.nodes[id].blobHash]);
  }

  /** Owning a node or holding a grant on it is what the permission matrix asks for viewing. */
  lemma SelectedIsViewable(w: World, read: Reader, db: Tables, u: User, id: NodeId)
    requires w.Valid() && Consistent(w, read, db) && u.id in w.users && w.users[u.id] == u && id in db.nodes
    ensures (db.nodes[id].ownerId == u.id || u.id in GrantsOf(db, id))
       <==> May(u, Meaning(w, read, db)[id], Action.View)
  {
  }

  lemma SelectedAreViewable(w: World, read: Reader, db: Tables, u: User, ids: seq<NodeId>)
    requires w.Valid() && Consistent(w, read, db) && u.id in w.users && w.users[u.id] == u
    requires forall id :: id in ids <==> id in db.nodes && (db.nodes[id].ownerId == u.id || u.id in GrantsOf(db, id))
    ensures var fs := Meaning(w, read, db);
      forall id :: id in ids <==> id in fs && May(u, fs[id], Action.View)
  {
    var fs := Meaning(w, read, db);
    forall id | id in fs
      ensures id in ids <==> May(u, fs[id], Action.View)
    {
      SelectedIsViewable(w, read, db, u, id);
    }
  }

  lemma RowsAreListing(w: World, u: User, fs: Files, ids: seq<NodeId>, rows: seq<NodeInfo>)
    requires w.Valid() && WellFormed(w, fs)
    requires forall id :: id in ids <==> id in fs && May(u, fs[id], Action.View)
    requires |rows| == |ids|
    requires forall k :: 0 <= k < |ids| ==> ids[k] in ids && rows[k] == Info(w, u, ids[k], fs[ids[k]])
    ensures (set r | r in rows) == set id | id in fs && May(u, fs[id], Action.View) :: Info(w, u, id, fs[id])
  {
    var shown := set id | id in fs && May(u, fs[id], Action.View) :: Info(w, u, id, fs[id]);
    forall r | r in rows
      ensures r in shown
    {
      var k :| 0 <= k < |rows| && rows[k] == r;
      assert ids[k] in ids;
    }
    forall r | r in shown
      ensures r in rows
    {
      var id :| id in fs && May(u, fs[id], Action.View) && r == Info(w, u, id, fs[id]);
      assert id in ids;
      var k :| 0 <= k < |ids| && ids[k] == id;
      assert rows[k] == r;
    }
  }

  lemma {:induction false} NewestExists(nodes: map<NodeId, NodeRow>, todo: set<NodeId>)
    requires todo != {} && todo <= nodes.Keys
    ensures exists id :: id in todo && forall k :: k in todo ==> nodes[k].createdAt <= nodes[id].createdAt
    decreases |todo|
  {
    SomeMember(todo);
    var x :| x in todo;
    if todo != {x} {
      assert todo - {x} != {};
      NewestExists(nodes, todo - {x});
      var id :| id in todo - {x} && forall k :: k in todo - {x} ==> nodes[k].createdAt <= nodes[id].createdAt;
      var best := if nodes[x].createdAt <= nodes[id].createdAt then id else x;
      assert best in todo && forall k :: k in todo ==> nodes[k].createdAt <= nodes[best].createdAt;
    }
  }
}
