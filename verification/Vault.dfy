/** What the file API promises its users: a plain map from file id to a file with its own copy of
    the bytes and its own grants. No hashes, no keys, no reference counts. internal/files/files.go
    is proved against this map in the module Repository. */
module Vault {
  import opened Prelude
  import opened Authz

  type NodeId = int

  /** Users by id, and the settings the operations read. */
  datatype World = World(
    users: map<UserId, User>,
    maxBytes: int,
    // SanitizeFilename: see the module Filename
    sanitize: string -> bytes,
    // ValidateContent: the stored type for a declared type and the first 512 bytes, or a refusal
    validate: (string, bytes) -> Option<string>
  ) {
    ghost predicate Valid() {
      && maxBytes > 0
      && (forall i :: i in users ==> i != NO_ID && users[i].id == i)
      && (forall i, j :: i in users && j in users && users[i].username == users[j].username ==> i == j)
    }

    predicate Knows(name: string) {
      exists i :: i in users && users[i].username == name
    }

    /** The id behind a username. */
    ghost function IdOf(name: string): UserId
      requires Knows(name)
    {
      var i :| i in users && users[i].username == name; i
    }
  }

  datatype File = File(
    owner: UserId, name: bytes, mime: string, created: int, updated: int,
    content: bytes, grants: map<UserId, Role>)

  type Files = map<NodeId, File>

  datatype MyRole = Owner | Grantee(role: Role) | NoRole

  datatype NodeInfo = NodeInfo(
    id: NodeId, name: bytes, mime: string, size: nat, ownerName: string, myRole: MyRole,
    created: int, updated: int)

  datatype Op =
    | DoUpload(id: NodeId, filename: string, declared: string, body: bytes, now: int)
    | DoList
    | DoStat(id: NodeId)
    | DoDownload(id: NodeId)
    | DoRename(id: NodeId, newName: string, now: int)
    | DoDelete(id: NodeId)
    | DoShare(id: NodeId, grantee: string, role: Role)
    | DoRevoke(id: NodeId, grantee: string)

  datatype Error = NotFound | TooLarge | TypeMismatch | BadRole | NoSuchUser | GrantToOwner | NoSuchGrant
                 | Integrity | Internal

  datatype Answer =
    | Node(info: NodeInfo)
    | Listing(nodes: set<NodeInfo>)
    | Details(info: NodeInfo, grants: Option<map<string, Role>>)
    | Content(info: NodeInfo, content: bytes)
    | Done
    | Denied(error: Error)

  function Acl(f: File): NodeAcl {
    NodeAcl(f.owner, f.grants)
  }

  predicate May(u: User, f: File, action: Action) {
    Can(Some(u), Acl(f), action)
  }

  function RoleOf(u: User, f: File): MyRole {
    if u.id == f.owner then Owner else if u.id in f.grants then Grantee(f.grants[u.id]) else NoRole
  }

  function Info(w: World, u: User, id: NodeId, f: File): NodeInfo
    requires f.owner in w.users
  {
    NodeInfo(id, f.name, f.mime, |f.content|, w.users[f.owner].username, RoleOf(u, f), f.created, f.updated)
  }

  /** Owners and grantees are users, roles are the two of the schema, and an owner holds no grant. */
  ghost predicate WellFormed(w: World, fs: Files) {
    forall id :: id in fs ==> LegalFile(w, fs[id])
  }

  /** A request by a user the server knows; upload ids are fresh. */
  ghost predicate Request(w: World, fs: Files, u: User, op: Op) {
    && u.id in w.users && w.users[u.id] == u
    && (op.DoUpload? ==> op.id !in fs)
  }

  function Accepted(w: World, op: Op): Option<string>
    requires op.DoUpload?
  {
    w.validate(op.declared, if |op.body| <= 512 then op.body else op.body[..512])
  }

  function NewFile(w: World, u: User, op: Op, mime: string): File
    requires op.DoUpload?
  {
    File(u.id, w.sanitize(op.filename), mime, op.now, op.now, op.body, map[])
  }

  /** Whether the file exists and the user may do this to it: what authorize lets through. */
  predicate Allowed(fs: Files, u: User, id: NodeId, action: Action) {
    id in fs && May(u, fs[id], action)
  }

  /** The grants by username, as Stat lists them. */
  ghost function GrantList(w: World, f: File): map<string, Role>
    requires w.Valid() && f.grants.Keys <= w.users.Keys
  {
    var names := set g | g in f.grants :: w.users[g].username;
    map n | n in names :: f.grants[w.IdOf(n)]
  }

  /** What a request on a node asks permission for. */
  function Needs(op: Op): Action
    requires !op.DoUpload? && !op.DoList?
  {
    match op
    case DoStat(_) => View
    case DoDownload(_) => Download
    case DoRename(_, _, _) => Rename
    case DoDelete(_) => Delete
    case _ => Share
  }

  ghost predicate LegalFile(w: World, f: File) {
    && f.owner in w.users
    && f.grants.Keys <= w.users.Keys
    && f.owner !in f.grants
    && forall g :: g in f.grants ==> f.grants[g] in {Editor, Viewer}
  }

  /** The user a Share or Revoke request names, or the reason it is refused. */
  ghost function Named(w: World, op: Op, f: File): Result<UserId, Error>
    requires op.DoShare? || op.DoRevoke?
  {
    if !w.Knows(op.grantee) then Failure(if op.DoShare? then NoSuchUser else NoSuchGrant)
    else
      var g := w.IdOf(op.grantee);
      if op.DoShare? && g == f.owner then Failure(GrantToOwner)
      else if op.DoRevoke? && g !in f.grants then Failure(NoSuchGrant)
      else Success(g)
  }

  /** What an authorized request makes of its file; None is a deletion. */
  ghost function FileNext(w: World, op: Op, f: File): Option<File>
    requires !op.DoUpload? && !op.DoList?
  {
    match op
    case DoRename(_, newName, now) => Some(f.(name := w.sanitize(newName), updated := now))
    case DoDelete(_) => None
    case DoShare(_, _, role) =>
      (match Named(w, op, f) case Failure(_) => Some(f) case Success(g) => Some(f.(grants := f.grants[g := role])))
    case DoRevoke(_, _) =>
      (match Named(w, op, f) case Failure(_) => Some(f) case Success(g) => Some(f.(grants := f.grants - {g})))
    case _ => Some(f)
  }

  /** The answer to an authorized request on a file. */
  ghost function FileReply(w: World, u: User, op: Op, f: File): Answer
    requires !op.DoUpload? && !op.DoList? && w.Valid() && LegalFile(w, f)
  {
    match op
    case DoStat(id) =>
      Details(Info(w, u, id, f), if May(u, f, Share) then Some(GrantList(w, f)) else None)
    case DoDownload(id) => Content(Info(w, u, id, f), f.content)
    case DoRename(id, _, _) => Node(Info(w, u, id, FileNext(w, op, f).value))
    case DoDelete(_) => Done
    case DoShare(_, _, _) => (match Named(w, op, f) case Failure(e) => Denied(e) case Success(_) => Done)
    case DoRevoke(_, _) => (match Named(w, op, f) case Failure(e) => Denied(e) case Success(_) => Done)
  }

  /** The answer to a request. */
  ghost function Reply(w: World, fs: Files, u: User, op: Op): Answer
    requires w.Valid() && WellFormed(w, fs) && Request(w, fs, u, op)
  {
    if op.DoUpload? then
      var mime := Accepted(w, op);
      if mime.None? then Denied(TypeMismatch)
      else if |op.body| > w.maxBytes then Denied(TooLarge)
      else Node(Info(w, u, op.id, NewFile(w, u, op, mime.value)))
    else if op.DoList? then
      Listing(set id | id in fs && May(u, fs[id], View) :: Info(w, u, id, fs[id]))
    else if op.DoShare? && op.role !in {Editor, Viewer} then Denied(BadRole)
    else if !Allowed(fs, u, op.id, Needs(op)) then Denied(NotFound)
    else FileReply(w, u, op, fs[op.id])
  }

  /** The files after a request. */
  ghost function Next(w: World, fs: Files, u: User, op: Op): (fs': Files)
    requires w.Valid() && WellFormed(w, fs) && Request(w, fs, u, op)
    ensures WellFormed(w, fs')
  {
    if op.DoUpload? then
      var mime := Accepted(w, op);
      if mime.None? || |op.body| > w.maxBytes then fs else fs[op.id := NewFile(w, u, op, mime.value)]
    else if op.DoList? || (op.DoShare? && op.role !in {Editor, Viewer}) || !Allowed(fs, u, op.id, Needs(op)) then fs
    else
      match FileNext(w, op, fs[op.id])
      case None => fs - {op.id}
      case Some(f) => fs[op.id := f]
  }

  lemma AuthorizedReply(w: World, fs: Files, u: User, op: Op)
    requires w.Valid() && WellFormed(w, fs) && Request(w, fs, u, op)
    requires !op.DoUpload? && !op.DoList? && Allowed(fs, u, op.id, Needs(op))
    requires op.DoShare? ==> op.role in {Editor, Viewer}
    ensures Reply(w, fs, u, op) == FileReply(w, u, op, fs[op.id])
  {
    assert LegalFile(w, fs[op.id]);
  }

  /** An authorized request does to the files what FileNext does to its file. */
  lemma AuthorizedStep(w: World, fs: Files, u: User, op: Op)
    requires w.Valid() && WellFormed(w, fs) && Request(w, fs, u, op)
    requires !op.DoUpload? && !op.DoList? && Allowed(fs, u, op.id, Needs(op))
    requires op.DoShare? ==> op.role in {Editor, Viewer}
    ensures Reply(w, fs, u, op) == FileReply(w, u, op, fs[op.id])
    ensures FileNext(w, op, fs[op.id]) == None ==> Next(w, fs, u, op) == fs - {op.id}
    ensures FileNext(w, op, fs[op.id]).Some? ==> Next(w, fs, u, op) == fs[op.id := FileNext(w, op, fs[op.id]).value]
    ensures FileNext(w, op, fs[op.id]) == Some(fs[op.id]) ==> Next(w, fs, u, op) == fs
  {
    AuthorizedReply(w, fs, u, op);
    var f := fs[op.id];
    match FileNext(w, op, f)
    case None =>
    case Some(g) => assert g == f ==> fs[op.id := g] == fs;
  }

  /** What Named makes of an authorized Share or Revoke. */
  lemma NamedStep(w: World, fs: Files, u: User, op: Op)
    requires w.Valid() && WellFormed(w, fs) && Request(w, fs, u, op)
    requires (op.DoShare? && op.role in {Editor, Viewer}) || op.DoRevoke?
    requires Allowed(fs, u, op.id, Action.Share)
    ensures match Named(w, op, fs[op.id])
      case Failure(e) => Reply(w, fs, u, op) == Denied(e) && Next(w, fs, u, op) == fs
      case Success(g) =>
        var f := fs[op.id];
        && Reply(w, fs, u, op) == Done
        && Next(w, fs, u, op)
           == fs[op.id := f.(grants := if op.DoShare? then f.grants[g := op.role] else f.grants - {g})]
  {
    AuthorizedStep(w, fs, u, op);
  }

  /** What the plain map shows of a file. */
  lemma StatReply(w: World, fs: Files, u: User, id: NodeId)
    requires w.Valid() && WellFormed(w, fs) && Request(w, fs, u, DoStat(id)) && Allowed(fs, u, id, View)
    ensures Reply(w, fs, u, DoStat(id))
         == Details(Info(w, u, id, fs[id]), if May(u, fs[id], Share) then Some(GrantList(w, fs[id])) else None)
  {
  }

  // ----- whole runs -----

  datatype Call = Call(u: User, op: Op)

  /** Every request of the script is made by a known user, with fresh upload ids, when it is made. */
  ghost predicate Legal(w: World, fs: Files, script: seq<Call>)
    requires w.Valid() && WellFormed(w, fs)
    decreases |script|, 0
  {
    script == [] ||
    var init, last := script[..|script| - 1], script[|script| - 1];
    Legal(w, fs, init) && Request(w, After(w, fs, init), last.u, last.op)
  }

  ghost function After(w: World, fs: Files, script: seq<Call>): (fs': Files)
    requires w.Valid() && WellFormed(w, fs) && Legal(w, fs, script)
    ensures WellFormed(w, fs')
    decreases |script|, 1
  {
    if script == [] then fs
    else
      var init, last := script[..|script| - 1], script[|script| - 1];
      Next(w, After(w, fs, init), last.u, last.op)
  }

  ghost function Replies(w: World, fs: Files, script: seq<Call>): (answers: seq<Answer>)
    requires w.Valid() && WellFormed(w, fs) && Legal(w, fs, script)
    ensures |answers| == |script|
  {
    if script == [] then []
    else
      var init, last := script[..|script| - 1], script[|script| - 1];
      Replies(w, fs, init) + [Reply(w, After(w, fs, init), last.u, last.op)]
  }

  lemma {:induction false} LegalPrefix(w: World, fs: Files, script: seq<Call>, i: nat)
    requires w.Valid() && WellFormed(w, fs) && Legal(w, fs, script) && i <= |script|
    ensures Legal(w, fs, script[..i])
    ensures i < |script| ==> Request(w, After(w, fs, script[..i]), script[i].u, script[i].op)
  {
    if i == |script| {
      assert script[..i] == script;
    } else if i < |script| - 1 {
      var init := script[..|script| - 1];
      LegalPrefix(w, fs, init, i);
      assert init[..i] == script[..i];
    }
  }

  /** One more call at the end of a run. */
  lemma AfterOneMore(w: World, fs: Files, script: seq<Call>, i: nat)
    requires w.Valid() && WellFormed(w, fs) && i < |script|
    requires Legal(w, fs, script[..i]) && Legal(w, fs, script[..i + 1])
    requires Request(w, After(w, fs, script[..i]), script[i].u, script[i].op)
    ensures After(w, fs, script[..i + 1]) == Next(w, After(w, fs, script[..i]), script[i].u, script[i].op)
    ensures Replies(w, fs, script[..i + 1])
         == Replies(w, fs, script[..i]) + [Reply(w, After(w, fs, script[..i]), script[i].u, script[i].op)]
  {
    var s := script[..i + 1];
    assert s[..|s| - 1] == script[..i] && s[|s| - 1] == script[i];
  }

  /** The contents in play in a run. */
  ghost function Bodies(fs: Files, script: seq<Call>): set<bytes> {
    (set id | id in fs :: fs[id].content) + (set c | c in script && c.op.DoUpload? :: c.op.body)
  }

  lemma NextContents(w: World, fs: Files, u: User, op: Op, id: NodeId)
    requires w.Valid() && WellFormed(w, fs) && Request(w, fs, u, op) && id in Next(w, fs, u, op)
    ensures var c := Next(w, fs, u, op)[id].content;
      (id in fs && c == fs[id].content) || (op.DoUpload? && c == op.body)
  {
  }

  lemma {:induction false} ContentsFrom(w: World, fs: Files, script: seq<Call>, i: nat, id: NodeId)
    requires w.Valid() && WellFormed(w, fs) && Legal(w, fs, script) && i <= |script| && Legal(w, fs, script[..i])
    requires id in After(w, fs, script[..i])
    ensures After(w, fs, script[..i])[id].content in Bodies(fs, script)
  {
    if i == 0 {
    } else {
      LegalPrefix(w, fs, script, i - 1);
      AfterOneMore(w, fs, script, i - 1);
      var before, c := After(w, fs, script[..i - 1]), script[i - 1];
      NextContents(w, before, c.u, c.op, id);
      if id in before {
        ContentsFrom(w, fs, script, i - 1, id);
      }
      assert c in script;
    }
  }

  // ----- runs in which some requests fail -----

  /** The calls of the script that took place. */
  ghost function Kept(script: seq<Call>, took: seq<bool>): seq<Call>
    requires |took| == |script|
  {
    if script == [] then []
    else
      var i := |script| - 1;
      Kept(script[..i], took[..i]) + if took[i] then [script[i]] else []
  }

  lemma {:induction false} KeptSplits(script: seq<Call>, took: seq<bool>, i: nat)
    requires |took| == |script| && i <= |script|
    ensures Kept(script[..i], took[..i]) <= Kept(script, took)
    ensures i < |script| && took[i] ==>
      Kept(script[..i], took[..i]) + [script[i]] == Kept(script[..i + 1], took[..i + 1])
  {
    if i < |script| { KeptOneMore(script, took, i); }
    if i == |script| {
      assert script[..i] == script && took[..i] == took;
    } else {
      var n := |script| - 1;
      var init, kept := script[..n], took[..n];
      KeptSplits(init, kept, i);
      assert init[..i] == script[..i] && kept[..i] == took[..i];
    }
  }

  lemma KeptOneMore(script: seq<Call>, took: seq<bool>, i: nat)
    requires |took| == |script| && i < |script|
    ensures Kept(script[..i + 1], took[..i + 1])
         == Kept(script[..i], took[..i]) + if took[i] then [script[i]] else []
  {
    var s, t := script[..i + 1], took[..i + 1];
    assert s[..i] == script[..i] && t[..i] == took[..i];
  }

  lemma {:induction false} AllKept(script: seq<Call>, took: seq<bool>)
    requires |took| == |script| && forall i :: 0 <= i < |took| ==> took[i]
    ensures Kept(script, took) == script
  {
    if script == [] {
    } else {
      var i := |script| - 1;
      AllKept(script[..i], took[..i]);
      assert script == script[..i] + [script[i]];
    }
  }

  lemma {:induction false} KeptAreCalls(script: seq<Call>, took: seq<bool>, c: Call)
    requires |took| == |script| && c in Kept(script, took)
    ensures c in script
  {
    var i := |script| - 1;
    if c in Kept(script[..i], took[..i]) { KeptAreCalls(script[..i], took[..i], c); }
  }

  lemma {:induction false} ReplyAt(w: World, fs: Files, script: seq<Call>, i: nat)
    requires w.Valid() && WellFormed(w, fs) && Legal(w, fs, script) && i < |script|
    requires Legal(w, fs, script[..i]) && Request(w, After(w, fs, script[..i]), script[i].u, script[i].op)
    ensures Replies(w, fs, script)[i] == Reply(w, After(w, fs, script[..i]), script[i].u, script[i].op)
  {
    var n := |script| - 1;
    var init, last := script[..n], script[n];
    var replies, a := Replies(w, fs, init), Reply(w, After(w, fs, init), last.u, last.op);
    assert Replies(w, fs, script) == replies + [a];
    if i < n {
      assert init[..i] == script[..i] && init[i] == script[i];
      ReplyAt(w, fs, init, i);
      assert (replies + [a])[i] == replies[i];
    } else {
      assert (replies + [a])[i] == a;
    }
  }

  /** Known users, and upload ids that are new and never come up twice. */
  ghost predicate FreshIds(w: World, fs: Files, script: seq<Call>) {
    && (forall c :: c in script ==> c.u.id in w.users && w.users[c.u.id] == c.u)
    && (forall i :: 0 <= i < |script| && script[i].op.DoUpload? ==> script[i].op.id !in fs)
    && (forall i, j :: 0 <= i < j < |script| && script[i].op.DoUpload? && script[j].op.DoUpload? ==>
          script[i].op.id != script[j].op.id)
  }

  lemma {:induction false} IdsFrom(w: World, fs: Files, script: seq<Call>, id: NodeId)
    requires w.Valid() && WellFormed(w, fs) && Legal(w, fs, script) && id in After(w, fs, script)
    ensures id in fs || exists c :: c in script && c.op.DoUpload? && c.op.id == id
  {
    if script == [] {
    } else {
      var init, c := script[..|script| - 1], script[|script| - 1];
      if id in After(w, fs, init) {
        IdsFrom(w, fs, init, id);
      } else {
        assert c in script && c.op.DoUpload? && c.op.id == id;
      }
    }
  }

  /** Then every choice of the calls that take place is legal. */
  lemma {:induction false} FreshIsLegal(w: World, fs: Files, script: seq<Call>, took: seq<bool>)
    requires w.Valid() && WellFormed(w, fs) && FreshIds(w, fs, script) && |took| == |script|
    ensures Legal(w, fs, Kept(script, took))
  {
    if script == [] {
    } else {
      var i := |script| - 1;
      var init, c := script[..i], script[i];
      var kept := Kept(init, took[..i]);
      assert c in script && forall x :: x in init ==> x in script;
      FreshIsLegal(w, fs, init, took[..i]);
      if c.op.DoUpload? { FreshIsNew(w, fs, script, took[..i]); }
      assert Request(w, After(w, fs, kept), c.u, c.op);
      assert (kept + [c])[..|kept|] == kept;
      assert kept + [] == kept;
    }
  }

  lemma FreshIsNew(w: World, fs: Files, script: seq<Call>, took: seq<bool>)
    requires w.Valid() && WellFormed(w, fs) && FreshIds(w, fs, script) && |took| + 1 == |script|
    requires script[|took|].op.DoUpload? && Legal(w, fs, Kept(script[..|took|], took))
    ensures script[|took|].op.id !in After(w, fs, Kept(script[..|took|], took))
  {
    var i := |took|;
    var kept, id := Kept(script[..i], took), script[i].op.id;
    forall x | x in kept && x.op.DoUpload?
      ensures x.op.id != id
    {
      KeptAreCalls(script[..i], took, x);
    }
    if id in After(w, fs, kept) { IdsFrom(w, fs, kept, id); }
  }
}
