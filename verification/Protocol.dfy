/** Concurrent uploads and deletes of internal/files/files.go over PostgreSQL and the disk, one
    SQL statement or file-system call a step. Transactions are READ COMMITTED: a statement sees
    committed rows, row locks are held to the end of the transaction, and a crash drops every
    pending write but no committed row and no file. */
module Protocol {
  import opened Prelude
  import opened Storage

  /** Requests are numbered; the node an upload creates carries its number (fresh UUIDs). */
  type Pid = int

  datatype Row = Row(wrappedDek: bytes, refs: int)

  datatype Outcome = Ok | Conflict | FinalizedTwice | OtherError

  /** The statement an upload is about to run. A row argument is its transaction's pending blob row. */
  datatype UploadPc =
    | Select            // SELECT ref_count ... FOR UPDATE
    | InsertBlob        // no row was found: INSERT INTO blobs
    | Publish(row: Row) // staged.Commit: rename
    | Update            // the row was found and locked: UPDATE ref_count + 1
    | Discard(row: Row) // staged.Abort
    | InsertNode(row: Row)
    | CommitUpload(row: Row)
    | Cleanup(outcome: Outcome) // the deferred Abort
    | Returned(outcome: Outcome)

  /** `removed`: the transaction has deleted the node row. */
  datatype DeletePc =
    | DeleteNode
    | Dereference(removed: bool)           // UPDATE ref_count - 1
    | DeleteBlob(removed: bool, row: Row)  // the count is zero: DELETE FROM blobs
    | CommitDelete(removed: bool, row: Row)
    | Unlink                               // committed with the count at zero: store.Remove
    | Deleted
    | Failed

  datatype Proc =
    | Upload(cargo: Envelope, attempt: nat, done: bool, up: UploadPc)
    | Delete(node: Pid, hash: bytes, del: DeletePc)

  datatype State = State(
    rows: map<bytes, Row>,    // committed blobs
    nodes: map<Pid, bytes>,   // committed nodes and the blob each names
    objects: map<bytes, bytes>,
    temps: set<Pid>,          // temporary files, by the upload that staged them
    procs: map<Pid, Proc>,
    born: set<Pid>)           // numbers handed out

  const INIT := State(map[], map[], map[], {}, map[], {})

  /** The request has given its answer. */
  predicate Finished(q: Proc) {
    if q.Upload? then q.up.Returned? else q.del.Deleted? || q.del.Failed?
  }

  // ----- locks -----

  predicate Holds(q: Proc, hash: bytes) {
    match q
    case Upload(cargo, _, _, up) =>
      cargo.hash == hash && (up.Publish? || up.Update? || up.Discard? || up.InsertNode? || up.CommitUpload?)
    case Delete(_, h, del) => h == hash && (del.DeleteBlob? || del.CommitDelete?)
  }

  predicate HoldsNode(q: Proc, node: Pid) {
    && q.Delete? && q.node == node
    && (q.del.Dereference? || q.del.DeleteBlob? || q.del.CommitDelete?) && q.del.removed
  }

  predicate Free(s: State, hash: bytes) {
    forall q :: q in s.procs ==> !Holds(s.procs[q], hash)
  }

  predicate NodeFree(s: State, node: Pid) {
    forall q :: q in s.procs ==> !HoldsNode(s.procs[q], node)
  }

  // ----- steps -----

  datatype Step =
    | StartUpload(p: Pid, cargo: Envelope) // the content is staged
    | StartDelete(p: Pid, node: Pid)       // the delete is authorized
    | Tick(p: Pid)                         // the next statement of p, if its lock is free
    | Fail(p: Pid)                         // the next statement of p fails
    | Crash

  function Goto(s: State, p: Pid, u: Proc, pc: UploadPc): State
    requires u.Upload?
  {
    s.(procs := s.procs[p := u.(up := pc)])
  }

  function GotoDelete(s: State, p: Pid, d: Proc, pc: DeletePc): State
    requires d.Delete?
  {
    s.(procs := s.procs[p := d.(del := pc)])
  }

  function TickUpload(s: State, p: Pid, u: Proc): State
    requires u.Upload?
  {
    var h := u.cargo.hash;
    match u.up
    case Select =>
      if h !in s.rows then Goto(s, p, u, InsertBlob)
      else if !Free(s, h) then s
      else Goto(s, p, u, Update)
    case InsertBlob =>
      if !Free(s, h) then s
      else if h in s.rows then // unique violation: the transaction is rolled back
        if u.attempt == 0 then Goto(s, p, u.(attempt := 1), Select) else Goto(s, p, u, Cleanup(Conflict))
      else Goto(s, p, u, Publish(Row(u.cargo.wrappedDek, 1)))
    case Publish(row) =>
      if u.done then Goto(s, p, u, Cleanup(FinalizedTwice))
      else
        var s' := s.(objects := s.objects[h := u.cargo.file], temps := s.temps - {p});
        Goto(s', p, u.(done := true), InsertNode(row))
    case Update =>
      if h in s.rows then Goto(s, p, u, Discard(s.rows[h].(refs := s.rows[h].refs + 1)))
      else Goto(s, p, u, Cleanup(OtherError))
    case Discard(row) =>
      Goto(s.(temps := s.temps - {p}), p, u.(done := true), InsertNode(row))
    case InsertNode(row) => Goto(s, p, u, CommitUpload(row))
    case CommitUpload(row) =>
      Goto(s.(rows := s.rows[h := row], nodes := s.nodes[p := h]), p, u, Cleanup(Ok))
    case Cleanup(outcome) =>
      Goto(s.(temps := s.temps - {p}), p, u.(done := true), Returned(outcome))
    case Returned(_) => s
  }

  function TickDelete(s: State, p: Pid, d: Proc): State
    requires d.Delete?
  {
    var h := d.hash;
    match d.del
    case DeleteNode =>
      if !NodeFree(s, d.node) then s else GotoDelete(s, p, d, Dereference(d.node in s.nodes))
    case Dereference(removed) =>
      if h !in s.rows then GotoDelete(s, p, d, Failed)
      else if !Free(s, h) then s
      else
        var row := s.rows[h].(refs := s.rows[h].refs - 1);
        if row.refs < 0 then GotoDelete(s, p, d, Failed) // CHECK (ref_count >= 0)
        else if row.refs == 0 then GotoDelete(s, p, d, DeleteBlob(removed, row))
        else GotoDelete(s, p, d, CommitDelete(removed, row))
    case DeleteBlob(removed, row) =>
      if AnotherLocked(s, h, removed, d.node) then s
      else if StillNamed(s, h, removed, d.node) then GotoDelete(s, p, d, Failed) // foreign key
      else GotoDelete(s, p, d, CommitDelete(removed, row))
    case CommitDelete(removed, row) =>
      var s' := s.(rows := if row.refs == 0 then s.rows - {h} else s.rows[h := row],
                   nodes := if removed then s.nodes - {d.node} else s.nodes);
      GotoDelete(s', p, d, if row.refs == 0 then Unlink else Deleted)
    case Unlink => GotoDelete(s.(objects := s.objects - {h}), p, d, Deleted)
    case Deleted => s
    case Failed => s
  }

  /** Some node other than the one this transaction removed names the blob. */
  predicate StillNamed(s: State, hash: bytes, removed: bool, node: Pid) {
    exists n :: n in s.nodes && s.nodes[n] == hash && !(removed && n == node)
  }

  /** The foreign-key check of DELETE FROM blobs locks the nodes that still name the blob FOR KEY
      SHARE, so it waits for a transaction that has deleted one of them and is not over. */
  predicate AnotherLocked(s: State, hash: bytes, removed: bool, node: Pid) {
    exists n :: n in s.nodes && s.nodes[n] == hash && !(removed && n == node) && !NodeFree(s, n)
  }

  /** An error at the next statement rolls back; at the rename it also costs the staged file. */
  function FailProc(s: State, p: Pid, q: Proc): State {
    match q
    case Upload(_, _, _, up) =>
      if up.Returned? || up.Cleanup? then s
      else if up.Publish? then Goto(s.(temps := s.temps - {p}), p, q.(done := true), Cleanup(OtherError))
      else Goto(s, p, q, Cleanup(OtherError))
    case Delete(_, _, del) =>
      if del.Deleted? || del.Failed? then s else GotoDelete(s, p, q, Failed)
  }

  function Do(s: State, step: Step): State {
    match step
    case StartUpload(p, cargo) =>
      if p in s.born then s
      else s.(procs := s.procs[p := Upload(cargo, 0, false, Select)], temps := s.temps + {p}, born := s.born + {p})
    case StartDelete(p, node) =>
      if p in s.born || node !in s.nodes then s
      else s.(procs := s.procs[p := Delete(node, s.nodes[node], DeleteNode)], born := s.born + {p})
    case Tick(p) =>
      if p !in s.procs then s
      else if s.procs[p].Upload? then TickUpload(s, p, s.procs[p])
      else TickDelete(s, p, s.procs[p])
    case Fail(p) => if p !in s.procs then s else FailProc(s, p, s.procs[p])
    case Crash => s.(procs := map[])
  }

  /** A run: any interleaving of steps. A step that is not enabled changes nothing. */
  function Exec(s: State, steps: seq<Step>): State {
    if steps == [] then s else Do(Exec(s, steps[..|steps| - 1]), steps[|steps| - 1])
  }

  // ----- what holds in every run -----

  /** The upload is over: its node, if any, was committed before. */
  predicate Over(s: State, n: Pid) {
    n in s.born && (n in s.procs && s.procs[n].Upload? ==> s.procs[n].up.Cleanup? || s.procs[n].up.Returned?)
  }

  ghost predicate UploadOk(s: State, p: Pid, u: Proc)
    requires u.Upload?
  {
    var h := u.cargo.hash;
    && (u.done <==> p !in s.temps)
    && (!u.up.Cleanup? && !u.up.Returned? ==> p !in s.nodes)
    && match u.up
       case Select => !u.done
       case InsertBlob => !u.done
       case Update => !u.done && h in s.rows
       case Discard(row) => !u.done && h in s.rows && row == s.rows[h].(refs := s.rows[h].refs + 1)
       case Publish(row) => !u.done && h !in s.rows && row == Row(u.cargo.wrappedDek, 1)
       case InsertNode(row) => u.done && PendingUpload(s, u, row)
       case CommitUpload(row) => u.done && PendingUpload(s, u, row)
       case Cleanup(outcome) => outcome != FinalizedTwice
       case Returned(outcome) => outcome != FinalizedTwice && u.done
  }

  ghost predicate PendingUpload(s: State, u: Proc, row: Row)
    requires u.Upload?
  {
    var h := u.cargo.hash;
    if h in s.rows then row == s.rows[h].(refs := s.rows[h].refs + 1) else row == Row(u.cargo.wrappedDek, 1)
  }

  ghost predicate DeleteOk(s: State, d: Proc)
    requires d.Delete?
  {
    && Over(s, d.node)
    && (d.node in s.nodes ==> s.nodes[d.node] == d.hash)
    && match d.del
       case Dereference(removed) => removed ==> d.node in s.nodes
       case DeleteBlob(removed, row) => PendingDelete(s, d, removed, row) && row.refs == 0
       case CommitDelete(removed, row) =>
         PendingDelete(s, d, removed, row) && (row.refs == 0 ==> !StillNamed(s, d.hash, removed, d.node))
       case _ => true
  }

  ghost predicate PendingDelete(s: State, d: Proc, removed: bool, row: Row)
    requires d.Delete?
  {
    && (removed ==> d.node in s.nodes)
    && d.hash in s.rows && row == s.rows[d.hash].(refs := s.rows[d.hash].refs - 1) && row.refs >= 0
  }

  ghost predicate ProcOk(s: State, p: Pid, q: Proc) {
    p in s.born && if q.Upload? then UploadOk(s, p, q) else DeleteOk(s, q)
  }

  /** Locks exclude each other, and a lock holder's pending row is one away from the committed one. */
  ghost predicate Sane(s: State) {
    && (forall p :: p in s.procs ==> ProcOk(s, p, s.procs[p]))
    && (forall p, q, h :: p in s.procs && q in s.procs && Holds(s.procs[p], h) && Holds(s.procs[q], h) ==> p == q)
    && (forall p, q, n :: p in s.procs && q in s.procs ==>
          HoldsNode(s.procs[p], n) && HoldsNode(s.procs[q], n) ==> p == q)
    && (forall n :: n in s.nodes ==> Over(s, n))
    && (forall t :: t in s.temps ==> t in s.born)
  }

  /** A step of `p` from `s` to `s'` touches only its own temporary file, the rows it has locked,
      the node it adds and the node it has locked; and takes only free locks. */
  ghost predicate Confined(s: State, s': State, p: Pid) {
    && p in s.procs && p in s'.procs && s'.procs == s.procs[p := s'.procs[p]]
    && s'.born == s.born && (s'.temps == s.temps || s'.temps == s.temps - {p})
    && (forall h :: !Holds(s.procs[p], h) ==>
          (h in s'.rows <==> h in s.rows) && (h in s.rows ==> s'.rows[h] == s.rows[h]))
    && (forall n :: n in s.nodes && n in s'.nodes ==> s'.nodes[n] == s.nodes[n])
    && (forall n :: n in s.nodes && n !in s'.nodes ==> HoldsNode(s.procs[p], n))
    && (forall n :: n in s'.nodes && n !in s.nodes ==>
          n == p && !Over(s, p) && Over(s', p) && Holds(s.procs[p], s'.nodes[p]))
    && (Over(s, p) ==> Over(s', p))
    && (forall h :: Holds(s'.procs[p], h) ==> Holds(s.procs[p], h) || Free(s, h))
    && (forall n :: HoldsNode(s'.procs[p], n) ==> HoldsNode(s.procs[p], n) || NodeFree(s, n))
  }

  lemma OthersStayOk(s: State, s': State, p: Pid, q: Pid)
    requires Sane(s) && Confined(s, s', p) && q in s.procs && q != p
    ensures ProcOk(s', q, s.procs[q])
  {
    var c := s.procs[q];
    assert forall n :: Over(s, n) ==> Over(s', n);
    if c.Delete? {
      assert HoldsNode(c, c.node) ==> !HoldsNode(s.procs[p], c.node);
      assert c.del.DeleteBlob? || c.del.CommitDelete? ==> Holds(c, c.hash) && !Holds(s.procs[p], c.hash);
      if c.del.CommitDelete? && c.del.row.refs == 0 {
        assert !StillNamed(s, c.hash, c.del.removed, c.node);
        forall n | n in s'.nodes && s'.nodes[n] == c.hash
          ensures n in s.nodes
        {
        }
      }
    } else {
      assert Holds(c, c.cargo.hash) ==> !Holds(s.procs[p], c.cargo.hash);
    }
  }

  lemma ConfinedKeepsSane(s: State, s': State, p: Pid)
    requires Sane(s) && Confined(s, s', p) && ProcOk(s', p, s'.procs[p])
    ensures Sane(s')
  {
    forall q | q in s'.procs
      ensures ProcOk(s', q, s'.procs[q])
    {
      if q != p { OthersStayOk(s, s', p, q); }
    }
  }

  /** A step that changes no row and no node: only the process moves on. */
  lemma MoveKeepsSane(s: State, s': State, p: Pid)
    requires Sane(s) && p in s.procs && p in s'.procs && s'.procs == s.procs[p := s'.procs[p]]
    requires s'.rows == s.rows && s'.nodes == s.nodes && s'.born == s.born
    requires s'.temps == s.temps || s'.temps == s.temps - {p}
    requires ProcOk(s', p, s'.procs[p]) && (Over(s, p) ==> Over(s', p))
    requires forall h :: Holds(s'.procs[p], h) ==> Holds(s.procs[p], h) || Free(s, h)
    requires forall n :: HoldsNode(s'.procs[p], n) ==> HoldsNode(s.procs[p], n) || NodeFree(s, n)
    ensures Sane(s')
  {
    ConfinedKeepsSane(s, s', p);
  }

  lemma TickUploadSane(s: State, p: Pid)
    requires Sane(s) && p in s.procs && s.procs[p].Upload?
    ensures Sane(TickUpload(s, p, s.procs[p]))
  {
    var u := s.procs[p];
    var s' := TickUpload(s, p, u);
    assert ProcOk(s, p, u);
    if u.up.CommitUpload? {
      CommitUploadSane(s, p, u.up.row);
    } else if s' != s {
      assert UploadOk(s', p, s'.procs[p]);
      MoveKeepsSane(s, s', p);
    }
  }

  lemma CommitUploadSane(s: State, p: Pid, row: Row)
    requires Sane(s) && p in s.procs && s.procs[p].Upload? && s.procs[p].up == CommitUpload(row)
    ensures Sane(TickUpload(s, p, s.procs[p]))
  {
    var s' := TickUpload(s, p, s.procs[p]);
    assert ProcOk(s, p, s.procs[p]);
    assert Holds(s.procs[p], s.procs[p].cargo.hash);
    ConfinedKeepsSane(s, s', p);
  }

  /** A statement moves its own request only, which stays an upload or a delete of what it was. */
  predicate MovesOnly(s: State, s': State, p: Pid) {
    && p in s.procs && p in s'.procs && s'.procs == s.procs[p := s'.procs[p]]
    && match s.procs[p]
       case Upload(cargo, _, _, _) => s'.procs[p].Upload? && s'.procs[p].cargo == cargo
       case Delete(node, hash, _) => s'.procs[p].Delete? && s'.procs[p].node == node && s'.procs[p].hash == hash
  }

  lemma UploadMovesOnly(s: State, p: Pid)
    requires p in s.procs && s.procs[p].Upload?
    ensures MovesOnly(s, TickUpload(s, p, s.procs[p]), p)
  {
    var u, s' := s.procs[p], TickUpload(s, p, s.procs[p]);
    match u.up
    case Select => assert MovesOnly(s, s', p);
    case InsertBlob => assert MovesOnly(s, s', p);
    case _ =>
  }

  lemma DeleteMovesOnly(s: State, p: Pid)
    requires p in s.procs && s.procs[p].Delete?
    ensures MovesOnly(s, TickDelete(s, p, s.procs[p]), p)
  {
    var d, s' := s.procs[p], TickDelete(s, p, s.procs[p]);
    match d.del
    case DeleteNode => assert MovesOnly(s, s', p);
    case Dereference(_) => assert MovesOnly(s, s', p);
    case DeleteBlob(_, _) => assert MovesOnly(s, s', p);
    case _ =>
  }

  /** The next statement of a delete, short of its commit: nothing in the tables changes. */
  lemma NextOfDelete(s: State, p: Pid)
    requires Sane(s) && p in s.procs && s.procs[p].Delete? && !s.procs[p].del.CommitDelete?
    ensures var s' := TickDelete(s, p, s.procs[p]);
      && MovesOnly(s, s', p) && s'.rows == s.rows && s'.nodes == s.nodes && s'.temps == s.temps
      && s'.born == s.born && DeleteOk(s', s'.procs[p])
  {
    DeleteMovesOnly(s, p);
    assert ProcOk(s, p, s.procs[p]);
  }

  lemma DeleteTakesBlob(s: State, p: Pid, h: bytes)
    requires p in s.procs && s.procs[p].Delete? && !Free(s, h)
    ensures var s' := TickDelete(s, p, s.procs[p]);
      p in s'.procs && (Holds(s'.procs[p], h) ==> Holds(s.procs[p], h))
  {
    match s.procs[p].del
    case DeleteNode =>
    case Dereference(_) =>
    case _ =>
  }

  lemma DeleteTakesNode(s: State, p: Pid, n: Pid)
    requires p in s.procs && s.procs[p].Delete? && !NodeFree(s, n)
    ensures var s' := TickDelete(s, p, s.procs[p]);
      p in s'.procs && (HoldsNode(s'.procs[p], n) ==> HoldsNode(s.procs[p], n))
  {
    match s.procs[p].del
    case DeleteNode =>
    case Dereference(_) =>
    case _ =>
  }

  lemma TickDeleteSane(s: State, p: Pid)
    requires Sane(s) && p in s.procs && s.procs[p].Delete?
    ensures Sane(TickDelete(s, p, s.procs[p]))
  {
    if s.procs[p].del.CommitDelete? {
      CommitDeleteSane(s, p, s.procs[p].del.removed, s.procs[p].del.row);
    } else {
      NextOfDelete(s, p);
      MovedDeleteSane(s, TickDelete(s, p, s.procs[p]), p);
    }
  }

  lemma MovedDeleteSane(s: State, s': State, p: Pid)
    requires Sane(s) && p in s.procs && s.procs[p].Delete? && s' == TickDelete(s, p, s.procs[p])
    requires MovesOnly(s, s', p) && s'.rows == s.rows && s'.nodes == s.nodes && s'.temps == s.temps
    requires s'.born == s.born && DeleteOk(s', s'.procs[p])
    ensures Sane(s')
  {
    forall h ensures Holds(s'.procs[p], h) ==> Holds(s.procs[p], h) || Free(s, h) {
      if !Free(s, h) { DeleteTakesBlob(s, p, h); }
    }
    forall n ensures HoldsNode(s'.procs[p], n) ==> HoldsNode(s.procs[p], n) || NodeFree(s, n) {
      if !NodeFree(s, n) { DeleteTakesNode(s, p, n); }
    }
    assert ProcOk(s, p, s.procs[p]);
    MoveKeepsSane(s, s', p);
  }

  lemma CommitDeleteSane(s: State, p: Pid, removed: bool, row: Row)
    requires Sane(s) && p in s.procs && s.procs[p].Delete? && s.procs[p].del == CommitDelete(removed, row)
    ensures Sane(TickDelete(s, p, s.procs[p]))
  {
    var s' := TickDelete(s, p, s.procs[p]);
    assert ProcOk(s, p, s.procs[p]);
    assert Holds(s.procs[p], s.procs[p].hash) && (removed ==> HoldsNode(s.procs[p], s.procs[p].node));
    ConfinedKeepsSane(s, s', p);
  }

  lemma FailSane(s: State, p: Pid)
    requires Sane(s) && p in s.procs
    ensures Sane(FailProc(s, p, s.procs[p]))
  {
    var s' := FailProc(s, p, s.procs[p]);
    assert ProcOk(s, p, s.procs[p]);
    if s' != s {
      assert ProcOk(s', p, s'.procs[p]);
      MoveKeepsSane(s, s', p);
    }
  }

  lemma StartSane(s: State, p: Pid, q: Proc)
    requires Sane(s) && p !in s.born
    requires q.Upload? ==> q == Upload(q.cargo, 0, false, Select)
    requires q.Delete? ==> q.node in s.nodes && q == Delete(q.node, s.nodes[q.node], DeleteNode)
    ensures var temps := if q.Upload? then s.temps + {p} else s.temps;
      Sane(s.(procs := s.procs[p := q], temps := temps, born := s.born + {p}))
  {
    var temps := if q.Upload? then s.temps + {p} else s.temps;
    var s' := s.(procs := s.procs[p := q], temps := temps, born := s.born + {p});
    assert forall n :: Over(s, n) ==> Over(s', n);
    forall k | k in s'.procs
      ensures ProcOk(s', k, s'.procs[k])
    {
      if k != p { assert ProcOk(s, k, s.procs[k]); }
    }
  }

  lemma StepSane(s: State, step: Step)
    requires Sane(s)
    ensures Sane(Do(s, step))
  {
    match step
    case StartUpload(p, cargo) => if p !in s.born { StartSane(s, p, Upload(cargo, 0, false, Select)); }
    case StartDelete(p, node) =>
      if p !in s.born && node in s.nodes { StartSane(s, p, Delete(node, s.nodes[node], DeleteNode)); }
    case Tick(p) =>
      if p in s.procs {
        if s.procs[p].Upload? { TickUploadSane(s, p); } else { TickDeleteSane(s, p); }
      }
    case Fail(p) => if p in s.procs { FailSane(s, p); }
    case Crash =>
  }

  lemma {:induction false} RunSane(s: State, steps: seq<Step>)
    requires Sane(s)
    ensures Sane(Exec(s, steps))
  {
    if steps == [] {
    } else {
      RunSane(s, steps[..|steps| - 1]);
      StepSane(Exec(s, steps[..|steps| - 1]), steps[|steps| - 1]);
    }
  }

  lemma TickMovesOnly(s: State, p: Pid)
    requires p in s.procs
    ensures MovesOnly(s, Do(s, Tick(p)), p)
  {
    if s.procs[p].Upload? { UploadMovesOnly(s, p); } else { DeleteMovesOnly(s, p); }
  }

  /** An error ends the transaction of a request that is not over, and changes no row, no node and no
      object; a crash ends every request and leaves everything that was committed and every file. */
  lemma ErrorsRollBack(s: State, p: Pid)
    requires p in s.procs
    ensures var s' := Do(s, Fail(p));
      && s'.rows == s.rows && s'.nodes == s.nodes && s'.objects == s.objects && s'.born == s.born
      && s'.procs.Keys == s.procs.Keys && (forall q :: q in s.procs && q != p ==> s'.procs[q] == s.procs[q])
      && match s.procs[p]
         case Upload(cargo, attempt, _, up) =>
           && s'.procs[p].Upload? && s'.procs[p].cargo == cargo && s'.procs[p].attempt == attempt
           && s'.procs[p].up == (if up.Cleanup? || up.Returned? then up else Cleanup(OtherError))
         case Delete(n, h, del) =>
           s'.procs[p] == Delete(n, h, if del.Deleted? || del.Failed? then del else Failed)
    ensures var s' := Do(s, Crash);
      && s'.rows == s.rows && s'.nodes == s.nodes && s'.objects == s.objects && s'.temps == s.temps
      && s'.born == s.born && s'.procs == map[]
  {
  }

  // ----- composing runs -----

  function Ticks(p: Pid, k: nat): (steps: seq<Step>) {
    seq(k, _ => Tick(p))
  }

  lemma ExecTwo(s: State, a: Step, b: Step)
    ensures Exec(s, [a, b]) == Do(Do(s, a), b)
  {
    assert [a, b][..1] == [a] && [a][..0] == [];
    assert Exec(s, [a]) == Do(s, a);
  }

  lemma {:induction false} ExecConcat(s: State, a: seq<Step>, b: seq<Step>)
    ensures Exec(s, a + b) == Exec(Exec(s, a), b)
  {
    if b == [] {
      assert a + b == a;
    } else {
      ExecConcat(s, a, b[..|b| - 1]);
      assert (a + b)[..|a + b| - 1] == a + b[..|b| - 1];
    }
  }

  lemma OneMoreTick(s: State, p: Pid, k: nat)
    ensures Exec(s, Ticks(p, k + 1)) == Do(Exec(s, Ticks(p, k)), Tick(p))
  {
    assert Ticks(p, k + 1)[..k] == Ticks(p, k);
  }

  lemma StartThenTicks(s: State, start: Step, p: Pid, k: nat)
    ensures Exec(s, [start] + Ticks(p, k)) == Exec(Do(s, start), Ticks(p, k))
  {
    ExecConcat(s, [start], Ticks(p, k));
    assert [start][..0] == [] && Exec(s, []) == s;
  }

  /** A process that goes through these stages when nobody disturbs it. */
  lemma {:induction false} Undisturbed(p: Pid, stage: nat -> State, k: nat)
    requires forall j: nat :: j < k ==> Do(stage(j), Tick(p)) == stage(j + 1)
    ensures Exec(stage(0), Ticks(p, k)) == stage(k)
  {
    if k == 0 {
    } else {
      Undisturbed(p, stage, k - 1);
      assert Ticks(p, k)[..k - 1] == Ticks(p, k - 1);
    }
  }

  lemma ExecThree(s: State, a: seq<Step>, b: seq<Step>, c: seq<Step>)
    ensures Exec(s, a + b + c) == Exec(Exec(Exec(s, a), b), c)
  {
    ExecConcat(s, a, b);
    ExecConcat(s, a + b, c);
  }
}
