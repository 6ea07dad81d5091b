/** What the plain map of Vault promises, said field by field and role by role: who may do what to a
    file, what each request changes and nothing else, and what each answer shows. Nothing here goes
    through the functions Vault is built from. */
module Roles {
  import opened Prelude
  import opened Authz
  import opened Vault

  ghost predicate Asked(w: World, fs: Files, u: User, op: Op) {
    w.Valid() && WellFormed(w, fs) && Request(w, fs, u, op)
  }

  /** The row shows file `f` to `u`: its own fields, its owner's name, and the reader's own role. */
  predicate Describes(w: World, u: User, id: NodeId, f: File, info: NodeInfo) {
    && info.id == id && info.name == f.name && info.mime == f.mime && info.size == |f.content|
    && info.created == f.created && info.updated == f.updated
    && f.owner in w.users && info.ownerName == w.users[f.owner].username
    && (info.myRole == Owner <==> u.id == f.owner)
    && (u.id != f.owner && u.id in f.grants ==> info.myRole == Grantee(f.grants[u.id]))
  }

  /** The user named so, and no other, if there is one. */
  lemma NameTellsUser(w: World, name: string, g: UserId)
    requires w.Valid() && g in w.users && w.users[g].username == name
    ensures w.Knows(name) && w.IdOf(name) == g
  {
  }

  // ----- what a request changes -----

  /** A file appears exactly by an upload within the limit whose first 512 bytes are accepted; it is
      the uploader's, shared with nobody, with the bytes given. */
  lemma Appears(w: World, fs: Files, u: User, op: Op, id: NodeId)
    requires Asked(w, fs, u, op)
    ensures var fs' := Next(w, fs, u, op);
      (id !in fs && id in fs') <==>
        && op.DoUpload? && id == op.id && |op.body| <= w.maxBytes
        && w.validate(op.declared, if |op.body| <= 512 then op.body else op.body[..512]).Some?
    ensures var fs' := Next(w, fs, u, op);
      id !in fs && id in fs' ==>
        var mime := w.validate(op.declared, if |op.body| <= 512 then op.body else op.body[..512]).value;
        fs'[id] == File(u.id, w.sanitize(op.filename), mime, op.now, op.now, op.body, map[])
  {
    if op.DoUpload? {
    } else if !op.DoList? && op.id in fs && (op.DoShare? ==> op.role in {Editor, Viewer}) {
      if Allowed(fs, u, op.id, Needs(op)) { AuthorizedStep(w, fs, u, op); }
    }
  }

  /** A file disappears exactly by its owner's delete. */
  lemma Disappears(w: World, fs: Files, u: User, op: Op, id: NodeId)
    requires Asked(w, fs, u, op)
    ensures (id in fs && id !in Next(w, fs, u, op)) <==> op == DoDelete(id) && id in fs && u.id == fs[id].owner
  {
    if op.DoDelete? && op.id in fs {
      OnlyOwnersShareOrDelete(Some(u), Acl(fs[op.id]), Action.Delete);
    }
  }

  /** Owner, type, time of creation and bytes never change; name and time of change do exactly by a
      rename of the owner or an editor. */
  lemma Stays(w: World, fs: Files, u: User, op: Op, id: NodeId)
    requires Asked(w, fs, u, op) && id in fs && id in Next(w, fs, u, op)
    ensures var f, f' := fs[id], Next(w, fs, u, op)[id];
      && f'.owner == f.owner && f'.mime == f.mime && f'.created == f.created && f'.content == f.content
      && if op.DoRename? && op.id == id && (u.id == f.owner || (u.id in f.grants && f.grants[u.id] == Editor))
         then f'.name == w.sanitize(op.newName) && f'.updated == op.now
         else f'.name == f.name && f'.updated == f.updated
  {
    if !op.DoUpload? && !op.DoList? && op.id == id {
      MatrixExactly(u, Acl(fs[id]), Action.Rename);
      if (op.DoShare? ==> op.role in {Editor, Viewer}) && Allowed(fs, u, id, Needs(op)) {
        AuthorizedStep(w, fs, u, op);
      }
    }
  }

  /** The owner's share gives the user named the role; the owner's revocation takes it away; and no
      other grant changes. */
  lemma GrantStays(w: World, fs: Files, u: User, op: Op, id: NodeId, g: UserId)
    requires Asked(w, fs, u, op) && id in fs && id in Next(w, fs, u, op) && g in w.users
    ensures var f, f' := fs[id], Next(w, fs, u, op)[id];
      var name := w.users[g].username;
      if u.id == f.owner && g != f.owner && op.DoShare? && op.id == id && op.grantee == name
         && op.role in {Editor, Viewer}
      then g in f'.grants && f'.grants[g] == op.role
      else if u.id == f.owner && op == DoRevoke(id, name) then g !in f'.grants
      else (g in f'.grants <==> g in f.grants) && (g in f.grants ==> f'.grants[g] == f.grants[g])
  {
    NameTellsUser(w, w.users[g].username, g);
    if (op.DoShare? || op.DoRevoke?) && op.id == id {
      OnlyOwnersShareOrDelete(Some(u), Acl(fs[id]), Action.Share);
      if (op.DoShare? ==> op.role in {Editor, Viewer}) && Allowed(fs, u, id, Action.Share) { NamedStep(w, fs, u, op); }
    }
  }

  // ----- what an answer shows -----

  lemma InfoDescribes(w: World, u: User, id: NodeId, f: File)
    requires LegalFile(w, f)
    ensures Describes(w, u, id, f, Info(w, u, id, f))
  {
  }

  /** A refusal says why, in this order; otherwise the row of the new file. */
  lemma UploadAnswer(w: World, fs: Files, u: User, op: Op)
    requires Asked(w, fs, u, op) && op.DoUpload?
    ensures var a := Reply(w, fs, u, op);
      var mime := w.validate(op.declared, if |op.body| <= 512 then op.body else op.body[..512]);
      && (mime.None? ==> a == Denied(TypeMismatch))
      && (mime.Some? && |op.body| > w.maxBytes ==> a == Denied(TooLarge))
      && (mime.Some? && |op.body| <= w.maxBytes ==>
            && a.Node? && op.id in Next(w, fs, u, op)
            && Describes(w, u, op.id, Next(w, fs, u, op)[op.id], a.info))
  {
    var mime := Accepted(w, op);
    if mime.Some? && |op.body| <= w.maxBytes { InfoDescribes(w, u, op.id, NewFile(w, u, op, mime.value)); }
  }

  /** A listing has one row for each file the user owns or holds a grant on, and no other. */
  lemma ListAnswer(w: World, fs: Files, u: User)
    requires Asked(w, fs, u, DoList)
    ensures var a := Reply(w, fs, u, DoList);
      && a.Listing?
      && (forall r :: r in a.nodes ==> r.id in fs && Describes(w, u, r.id, fs[r.id], r))
      && (forall id :: id in fs && (u.id == fs[id].owner || u.id in fs[id].grants) <==>
            exists r :: r in a.nodes && r.id == id)
  {
    var a := Reply(w, fs, u, DoList);
    forall r | r in a.nodes
      ensures r.id in fs && Describes(w, u, r.id, fs[r.id], r)
      ensures u.id == fs[r.id].owner || u.id in fs[r.id].grants
    {
      InfoDescribes(w, u, r.id, fs[r.id]);
      MatrixExactly(u, Acl(fs[r.id]), Action.View);
    }
    forall id | id in fs && (u.id == fs[id].owner || u.id in fs[id].grants)
      ensures exists r :: r in a.nodes && r.id == id
    {
      assert LegalFile(w, fs[id]);
      MatrixExactly(u, Acl(fs[id]), Action.View);
      assert Info(w, u, id, fs[id]) in a.nodes;
    }
  }

  /** Owner and grantees see the file; the owner alone sees who else has it: every grant under its
      user's name, and no other. */
  lemma StatAnswer(w: World, fs: Files, u: User, id: NodeId)
    requires Asked(w, fs, u, DoStat(id))
    ensures var a := Reply(w, fs, u, DoStat(id));
      if id in fs && (u.id == fs[id].owner || u.id in fs[id].grants) then
        && a.Details? && Describes(w, u, id, fs[id], a.info) && (a.grants.Some? <==> u.id == fs[id].owner)
        && (a.grants.Some? ==> ListsGrants(w, fs[id], a.grants.value))
      else a == Denied(NotFound)
  {
    if id in fs {
      assert LegalFile(w, fs[id]);
      MatrixExactly(u, Acl(fs[id]), Action.View);
      MatrixExactly(u, Acl(fs[id]), Action.Share);
      InfoDescribes(w, u, id, fs[id]);
      GrantListLists(w, fs[id]);
    }
  }

  predicate ListsGrants(w: World, f: File, grants: map<string, Role>) {
    && (forall g :: g in f.grants ==>
          g in w.users && w.users[g].username in grants && grants[w.users[g].username] == f.grants[g])
    && (forall name :: name in grants ==> exists g :: g in f.grants && g in w.users && w.users[g].username == name)
  }

  lemma GrantListLists(w: World, f: File)
    requires w.Valid() && LegalFile(w, f)
    ensures ListsGrants(w, f, GrantList(w, f))
  {
    forall g | g in f.grants
      ensures w.users[g].username in GrantList(w, f) && GrantList(w, f)[w.users[g].username] == f.grants[g]
    {
      NameTellsUser(w, w.users[g].username, g);
    }
  }

  /** The file's own bytes, to its owner, its editors and its viewers alone. */
  lemma DownloadAnswer(w: World, fs: Files, u: User, id: NodeId)
    requires Asked(w, fs, u, DoDownload(id))
    ensures var a := Reply(w, fs, u, DoDownload(id));
      if id in fs && (u.id == fs[id].owner || u.id in fs[id].grants) then
        a.Content? && a.content == fs[id].content && Describes(w, u, id, fs[id], a.info)
      else a == Denied(NotFound)
  {
    if id in fs {
      assert LegalFile(w, fs[id]);
      MatrixExactly(u, Acl(fs[id]), Action.Download);
      InfoDescribes(w, u, id, fs[id]);
    }
  }

  /** The renamed file, to its owner and its editors alone. */
  lemma RenameAnswer(w: World, fs: Files, u: User, id: NodeId, newName: string, now: int)
    requires Asked(w, fs, u, DoRename(id, newName, now))
    ensures var a, fs' := Reply(w, fs, u, DoRename(id, newName, now)), Next(w, fs, u, DoRename(id, newName, now));
      if id in fs && (u.id == fs[id].owner || (u.id in fs[id].grants && fs[id].grants[u.id] == Editor)) then
        a.Node? && id in fs' && Describes(w, u, id, fs'[id], a.info)
        && fs' == fs[id := fs[id].(name := w.sanitize(newName), updated := now)]
      else a == Denied(NotFound) && fs' == fs
  {
    if id in fs {
      assert LegalFile(w, fs[id]);
      MatrixExactly(u, Acl(fs[id]), Action.Rename);
      if Allowed(fs, u, id, Action.Rename) {
        AuthorizedStep(w, fs, u, DoRename(id, newName, now));
        InfoDescribes(w, u, id, fs[id].(name := w.sanitize(newName), updated := now));
      }
    }
  }

  /** The owner's alone. */
  lemma DeleteAnswer(w: World, fs: Files, u: User, id: NodeId)
    requires Asked(w, fs, u, DoDelete(id))
    ensures var a, fs' := Reply(w, fs, u, DoDelete(id)), Next(w, fs, u, DoDelete(id));
      if id in fs && u.id == fs[id].owner then a == Done && fs' == fs - {id} else a == Denied(NotFound) && fs' == fs
  {
    if id in fs {
      assert LegalFile(w, fs[id]);
      OnlyOwnersShareOrDelete(Some(u), Acl(fs[id]), Action.Delete);
    }
  }

  /** The owner's alone; the role first, then the right, then the user, who must not be the owner. */
  lemma ShareAnswer(w: World, fs: Files, u: User, id: NodeId, grantee: string, role: Role)
    requires Asked(w, fs, u, DoShare(id, grantee, role))
    ensures var a, fs' := Reply(w, fs, u, DoShare(id, grantee, role)), Next(w, fs, u, DoShare(id, grantee, role));
      && (role != Editor && role != Viewer ==> a == Denied(BadRole))
      && (role == Editor || role == Viewer ==>
            if !(id in fs && u.id == fs[id].owner) then a == Denied(NotFound)
            else if forall g :: g in w.users ==> w.users[g].username != grantee then a == Denied(NoSuchUser)
            else if w.users[fs[id].owner].username == grantee then a == Denied(GrantToOwner)
            else a == Done)
      && (a != Done ==> fs' == fs)
      && (forall g :: a == Done && g in w.users && w.users[g].username == grantee ==>
            fs' == fs[id := fs[id].(grants := fs[id].grants[g := role])])
  {
    if id in fs {
      assert LegalFile(w, fs[id]);
      OnlyOwnersShareOrDelete(Some(u), Acl(fs[id]), Action.Share);
      NameTellsUser(w, w.users[fs[id].owner].username, fs[id].owner);
      if (role == Editor || role == Viewer) && Allowed(fs, u, id, Action.Share) {
        NamedStep(w, fs, u, DoShare(id, grantee, role));
        forall g | g in w.users && w.users[g].username == grantee
          ensures w.IdOf(grantee) == g
        {
          NameTellsUser(w, grantee, g);
        }
      }
    }
  }

  /** The owner's alone; nobody of that name and nobody who holds a grant are refused alike. */
  lemma RevokeAnswer(w: World, fs: Files, u: User, id: NodeId, grantee: string)
    requires Asked(w, fs, u, DoRevoke(id, grantee))
    ensures var a, fs' := Reply(w, fs, u, DoRevoke(id, grantee)), Next(w, fs, u, DoRevoke(id, grantee));
      && (if !(id in fs && u.id == fs[id].owner) then a == Denied(NotFound)
          else if exists g :: g in fs[id].grants && g in w.users && w.users[g].username == grantee then a == Done
          else a == Denied(NoSuchGrant))
      && (a != Done ==> fs' == fs)
      && (forall g :: a == Done && g in w.users && w.users[g].username == grantee ==>
            fs' == fs[id := fs[id].(grants := fs[id].grants - {g})])
  {
    if id in fs {
      assert LegalFile(w, fs[id]);
      OnlyOwnersShareOrDelete(Some(u), Acl(fs[id]), Action.Share);
      if Allowed(fs, u, id, Action.Share) {
        NamedStep(w, fs, u, DoRevoke(id, grantee));
        forall g | g in w.users && w.users[g].username == grantee
          ensures w.IdOf(grantee) == g
        {
          NameTellsUser(w, grantee, g);
        }
      }
    }
  }

  // ----- over whole runs -----

  /** A file stays, with its owner and its bytes, until its owner deletes it. */
  lemma {:induction false} StaysUntilDeleted(w: World, fs: Files, script: seq<Call>, id: NodeId)
    requires w.Valid() && WellFormed(w, fs) && Legal(w, fs, script) && id in fs
    requires forall c :: c in script && c.op == DoDelete(id) ==> c.u.id != fs[id].owner
    ensures var fs' := After(w, fs, script);
      id in fs' && fs'[id].owner == fs[id].owner && fs'[id].content == fs[id].content
  {
    if script == [] {
    } else {
      var init, c := script[..|script| - 1], script[|script| - 1];
      assert c in script && forall x :: x in init ==> x in script;
      StaysUntilDeleted(w, fs, init, id);
      var before := After(w, fs, init);
      Disappears(w, before, c.u, c.op, id);
      Stays(w, before, c.u, c.op, id);
    }
  }
}
