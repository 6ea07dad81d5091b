/** What one user can learn, and who shares what: properties of the plain files of Vault, hence of
    the repository that Repository proves to behave like them. */
module Visibility {
  import opened Prelude
  import opened Authz
  import opened Vault
  import opened Repository
  import Filename

  /** The user holds a role on the file. */
  predicate Holds(u: User, f: File) {
    u.id == f.owner || u.id in f.grants
  }

  /** A file as the user may know it: an owner knows every grant, a grantee only their own. */
  function Seen(u: User, f: File): File
    requires Holds(u, f)
  {
    if u.id == f.owner then f else f.(grants := map[u.id := f.grants[u.id]])
  }

  /** Everything visible to the user. */
  function VisibleTo(u: User, fs: Files): Files {
    map id | id in fs && Holds(u, fs[id]) :: Seen(u, fs[id])
  }

  /** Authorization and metadata of a file come out the same for the user on either side. */
  lemma SameFromView(w: World, fs: Files, u: User, id: NodeId)
    requires w.Valid() && WellFormed(w, fs) && u.id in w.users && w.users[u.id] == u && id in fs
    ensures Holds(u, fs[id]) <==> May(u, fs[id], Action.View)
    ensures Holds(u, fs[id]) ==>
      && (forall a :: May(u, fs[id], a) <==> May(u, Seen(u, fs[id]), a))
      && Info(w, u, id, fs[id]) == Info(w, u, id, Seen(u, fs[id]))
    ensures !Holds(u, fs[id]) ==> forall a :: !May(u, fs[id], a)
  {
  }

  lemma ViewIsWellFormed(w: World, fs: Files, u: User, op: Op)
    requires w.Valid() && WellFormed(w, fs) && Request(w, fs, u, op)
    ensures WellFormed(w, VisibleTo(u, fs)) && Request(w, VisibleTo(u, fs), u, op)
  {
  }

  lemma ListingFromView(w: World, fs: Files, u: User)
    requires w.Valid() && WellFormed(w, fs) && WellFormed(w, VisibleTo(u, fs)) && Request(w, fs, u, DoList)
    ensures Reply(w, fs, u, DoList) == Reply(w, VisibleTo(u, fs), u, DoList)
  {
    var v := VisibleTo(u, fs);
    forall id | id in fs
      ensures May(u, fs[id], Action.View) <==> id in v
      ensures id in v ==> May(u, v[id], Action.View) && Info(w, u, id, fs[id]) == Info(w, u, id, v[id])
    {
      SameFromView(w, fs, u, id);
    }
    assert (set id | id in fs && May(u, fs[id], Action.View) :: Info(w, u, id, fs[id]))
        == (set id | id in v && May(u, v[id], Action.View) :: Info(w, u, id, v[id]));
  }

  /** An authorized request comes out the same on a file and on what the user sees of it. */
  lemma FileFromSeen(w: World, u: User, op: Op, f: File)
    requires w.Valid() && LegalFile(w, f) && u.id in w.users && w.users[u.id] == u
    requires !op.DoUpload? && !op.DoList? && May(u, f, Needs(op))
    ensures Holds(u, f) && LegalFile(w, Seen(u, f))
    ensures FileReply(w, u, op, f) == FileReply(w, u, op, Seen(u, f))
    ensures match (FileNext(w, op, f), FileNext(w, op, Seen(u, f)))
      case (None, None) => true
      case (Some(g), Some(h)) => Holds(u, g) && Holds(u, h) && Seen(u, g) == Seen(u, h)
      case _ => false
  {
  }

  /** Requests are answered from what the user sees. */
  lemma ReplyFromView(w: World, fs: Files, u: User, op: Op)
    requires w.Valid() && WellFormed(w, fs) && Request(w, fs, u, op)
    ensures WellFormed(w, VisibleTo(u, fs)) && Request(w, VisibleTo(u, fs), u, op)
    ensures Reply(w, fs, u, op) == Reply(w, VisibleTo(u, fs), u, op)
  {
    ViewIsWellFormed(w, fs, u, op);
    if op.DoList? {
      ListingFromView(w, fs, u);
    } else if !op.DoUpload? && op.id in fs {
      SameFromView(w, fs, u, op.id);
      if Allowed(fs, u, op.id, Needs(op)) {
        FileFromSeen(w, u, op, fs[op.id]);
      }
    }
  }

  lemma VisibleTwice(u: User, fs: Files)
    ensures VisibleTo(u, VisibleTo(u, fs)) == VisibleTo(u, fs)
  {
    forall id | id in fs && Holds(u, fs[id])
      ensures Holds(u, Seen(u, fs[id])) && Seen(u, Seen(u, fs[id])) == Seen(u, fs[id])
    {
    }
  }

  /** Adding, replacing or removing one file on both sides keeps the two views equal. */
  lemma UpdatedViews(u: User, fs: Files, gs: Files, id: NodeId, f: File, g: File)
    requires VisibleTo(u, fs) == VisibleTo(u, gs)
    requires Holds(u, f) && Holds(u, g) && Seen(u, f) == Seen(u, g)
    ensures VisibleTo(u, fs[id := f]) == VisibleTo(u, gs[id := g])
    ensures VisibleTo(u, fs - {id}) == VisibleTo(u, gs - {id})
  {
    forall k
      ensures k in fs && Holds(u, fs[k]) <==> k in gs && Holds(u, gs[k])
      ensures k in fs && Holds(u, fs[k]) ==> Seen(u, fs[k]) == Seen(u, gs[k])
    {
      assert k in VisibleTo(u, fs) <==> k in VisibleTo(u, gs);
      if k in fs && Holds(u, fs[k]) {
        assert VisibleTo(u, fs)[k] == VisibleTo(u, gs)[k];
      }
    }
  }

  lemma AuthorizedFromView(w: World, fs: Files, u: User, op: Op)
    requires w.Valid() && WellFormed(w, fs) && Request(w, fs, u, op)
    requires WellFormed(w, VisibleTo(u, fs)) && Request(w, VisibleTo(u, fs), u, op)
    requires !op.DoUpload? && !op.DoList? && Allowed(fs, u, op.id, Needs(op))
    requires op.DoShare? ==> op.role in {Editor, Viewer}
    ensures VisibleTo(u, Next(w, fs, u, op)) == VisibleTo(u, Next(w, VisibleTo(u, fs), u, op))
  {
    var v, id := VisibleTo(u, fs), op.id;
    VisibleTwice(u, fs);
    SameFromView(w, fs, u, id);
    FileFromSeen(w, u, op, fs[id]);
    AuthorizedStep(w, fs, u, op);
    AuthorizedStep(w, v, u, op);
    var g, h := FileNext(w, op, fs[id]), FileNext(w, op, v[id]);
    UpdatedViews(u, fs, v, id, if g.Some? then g.value else fs[id], if h.Some? then h.value else v[id]);
  }

  /** What the user sees afterwards depends on what they saw before. */
  lemma NextFromView(w: World, fs: Files, u: User, op: Op)
    requires w.Valid() && WellFormed(w, fs) && Request(w, fs, u, op)
    ensures WellFormed(w, VisibleTo(u, fs)) && Request(w, VisibleTo(u, fs), u, op)
    ensures VisibleTo(u, Next(w, fs, u, op)) == VisibleTo(u, Next(w, VisibleTo(u, fs), u, op))
  {
    ViewIsWellFormed(w, fs, u, op);
    VisibleTwice(u, fs);
    var v := VisibleTo(u, fs);
    if op.DoUpload? {
      if Accepted(w, op).Some? {
        var f := NewFile(w, u, op, Accepted(w, op).value);
        UpdatedViews(u, fs, v, op.id, f, f);
      }
    } else if !op.DoList? && !(op.DoShare? && op.role !in {Editor, Viewer}) && op.id in fs {
      SameFromView(w, fs, u, op.id);
      if Allowed(fs, u, op.id, Needs(op)) { AuthorizedFromView(w, fs, u, op); }
    }
  }

  /** Two worlds that agree on the users and on everything visible to `u` give `u` the same
      answer, and agree on everything visible to `u` afterwards. */
  lemma HiddenFilesDoNotMatter(w: World, fs: Files, gs: Files, u: User, op: Op)
    requires w.Valid() && WellFormed(w, fs) && WellFormed(w, gs)
    requires Request(w, fs, u, op) && Request(w, gs, u, op)
    requires VisibleTo(u, fs) == VisibleTo(u, gs)
    ensures Reply(w, fs, u, op) == Reply(w, gs, u, op)
    ensures VisibleTo(u, Next(w, fs, u, op)) == VisibleTo(u, Next(w, gs, u, op))
  {
    ReplyFromView(w, fs, u, op);
    ReplyFromView(w, gs, u, op);
    NextFromView(w, fs, u, op);
    NextFromView(w, gs, u, op);
  }

  /** Two repositories whose users see the same of them, whatever else they hold and share,
      answer the user's request alike and stay alike for the user. */
  method AskBoth(r1: Repo, r2: Repo, u: User, op: Op, rnd1: Random, rnd2: Random) returns (a1: Answer, a2: Answer)
    requires r1.Valid() && r2.Valid() && r1.w == r2.w && {r1, r1.store as object} !! {r2, r2.store as object}
    requires Request(r1.w, r1.plain, u, op) && Request(r2.w, r2.plain, u, op)
    requires rnd1.Sized() && rnd2.Sized()
    requires op.DoUpload? ==>
      !Collides(r1.store.p, r1.plain, op.body) && !Collides(r2.store.p, r2.plain, op.body)
    requires VisibleTo(u, r1.plain) == VisibleTo(u, r2.plain)
    modifies r1, r1.store, r2, r2.store
    ensures r1.Valid() && r2.Valid()
    ensures a1 == a2 && VisibleTo(u, r1.plain) == VisibleTo(u, r2.plain)
  {
    HiddenFilesDoNotMatter(r1.w, r1.plain, r2.plain, u, op);
    a1 := Perform(r1, u, op, rnd1, NO_FAULT);
    a2 := Perform(r2, u, op, rnd2, NO_FAULT);
  }

  // ----- whole runs by several users -----

  /** A request of somebody else that may change what `u` sees: it renames or deletes a file `u`
      sees, or names `u` in a share or a revocation. */
  predicate Concerns(fs: Files, op: Op, u: User) {
    match op
    case DoRename(id, _, _) => id in fs && Holds(u, fs[id])
    case DoDelete(id) => id in fs && Holds(u, fs[id])
    case DoShare(_, grantee, _) => grantee == u.username
    case DoRevoke(_, grantee) => grantee == u.username
    case _ => false
  }

  lemma SameView(u: User, fs: Files, id: NodeId, f: File)
    requires Holds(u, f) <==> id in fs && Holds(u, fs[id])
    requires Holds(u, f) ==> Seen(u, f) == Seen(u, fs[id])
    ensures VisibleTo(u, fs[id := f]) == VisibleTo(u, fs)
  {
  }

  lemma GrantsOfOthers(w: World, fs: Files, c: Call, u: User)
    requires w.Valid() && WellFormed(w, fs) && Request(w, fs, c.u, c.op)
    requires u.id in w.users && w.users[u.id] == u && c.u != u && !Concerns(fs, c.op, u)
    requires (c.op.DoShare? && c.op.role in {Editor, Viewer}) || c.op.DoRevoke?
    requires Allowed(fs, c.u, c.op.id, Action.Share)
    ensures VisibleTo(u, Next(w, fs, c.u, c.op)) == VisibleTo(u, fs)
  {
    var id := c.op.id;
    var f := fs[id];
    NamedStep(w, fs, c.u, c.op);
    OnlyOwnersShareOrDelete(Some(c.u), Acl(f), Action.Share);
    var g := Named(w, c.op, f);
    if g.Success? {
      assert w.users[g.value].username == c.op.grantee != u.username;
      SameView(u, fs, id, f.(grants := if c.op.DoShare? then f.grants[g.value := c.op.role] else f.grants - {g.value}));
    }
  }

  /** A request of somebody else that does not concern `u` leaves what `u` sees. */
  lemma UnconcernedStep(w: World, fs: Files, c: Call, u: User)
    requires w.Valid() && WellFormed(w, fs) && Request(w, fs, c.u, c.op)
    requires u.id in w.users && w.users[u.id] == u && c.u != u && !Concerns(fs, c.op, u)
    ensures VisibleTo(u, Next(w, fs, c.u, c.op)) == VisibleTo(u, fs)
  {
    if c.op.DoUpload? {
      if Accepted(w, c.op).Some? { SameView(u, fs, c.op.id, NewFile(w, c.u, c.op, Accepted(w, c.op).value)); }
    } else if c.op.DoList? || (c.op.DoShare? && c.op.role !in {Editor, Viewer}) {
    } else if Allowed(fs, c.u, c.op.id, Needs(c.op)) {
      if c.op.DoShare? || c.op.DoRevoke? {
        GrantsOfOthers(w, fs, c, u);
      } else {
        AuthorizedStep(w, fs, c.u, c.op);
        var g := FileNext(w, c.op, fs[c.op.id]);
        if g.Some? { SameView(u, fs, c.op.id, g.value); }
      }
    }
  }

  /** The user's own calls. */
  function OwnCalls(script: seq<Call>, u: User): seq<Call> {
    if script == [] then []
    else
      var i := |script| - 1;
      OwnCalls(script[..i], u) + if script[i].u == u then [script[i]] else []
  }

  /** The answers to the user's own calls. */
  function OwnAnswers(script: seq<Call>, answers: seq<Answer>, u: User): seq<Answer>
    requires |answers| == |script|
  {
    if script == [] then []
    else
      var i := |script| - 1;
      OwnAnswers(script[..i], answers[..i], u) + if script[i].u == u then [answers[i]] else []
  }

  /** No call of somebody else concerns `u` when it is made. */
  ghost predicate Apart(w: World, fs: Files, script: seq<Call>, u: User)
    requires w.Valid() && WellFormed(w, fs) && Legal(w, fs, script)
  {
    script == [] ||
    var init, c := script[..|script| - 1], script[|script| - 1];
    Apart(w, fs, init, u) && (c.u == u || !Concerns(After(w, fs, init), c.op, u))
  }

  /** Everything in `fs` is visible to `u`, and there is nothing more to it. */
  ghost predicate OwnView(u: User, fs: Files) {
    forall id :: id in fs ==> Holds(u, fs[id]) && Seen(u, fs[id]) == fs[id]
  }

  lemma OwnViewExactly(u: User, fs: Files)
    ensures OwnView(u, VisibleTo(u, fs))
    ensures OwnView(u, fs) ==> VisibleTo(u, fs) == fs
  {
    var v := VisibleTo(u, fs);
    if OwnView(u, fs) {
      forall id | id in fs
        ensures id in v && v[id] == fs[id]
      {
        assert Holds(u, fs[id]) && Seen(u, fs[id]) == fs[id];
      }
      assert forall id :: id in v ==> id in fs;
      assert v == fs;
    }
  }

  lemma OwnStepStays(w: World, fs: Files, u: User, op: Op)
    requires w.Valid() && WellFormed(w, fs) && Request(w, fs, u, op) && OwnView(u, fs)
    ensures OwnView(u, Next(w, fs, u, op))
  {
    if op.DoUpload? || op.DoList? || (op.DoShare? && op.role !in {Editor, Viewer}) {
    } else if Allowed(fs, u, op.id, Needs(op)) {
      var f := fs[op.id];
      AuthorizedStep(w, fs, u, op);
      if op.DoShare? || op.DoRevoke? { OnlyOwnersShareOrDelete(Some(u), Acl(f), Action.Share); }
      var g := FileNext(w, op, f);
      assert g.Some? ==> Holds(u, g.value) && Seen(u, g.value) == g.value;
    }
  }

  /** One call of the user, on everything and on what they see. */
  lemma OwnStep(w: World, fs: Files, v: Files, u: User, op: Op)
    requires w.Valid() && WellFormed(w, fs) && Request(w, fs, u, op) && v == VisibleTo(u, fs)
    ensures WellFormed(w, v) && Request(w, v, u, op)
    ensures Reply(w, v, u, op) == Reply(w, fs, u, op)
    ensures Next(w, v, u, op) == VisibleTo(u, Next(w, fs, u, op))
  {
    ReplyFromView(w, fs, u, op);
    NextFromView(w, fs, u, op);
    OwnViewExactly(u, fs);
    OwnStepStays(w, v, u, op);
    OwnViewExactly(u, Next(w, v, u, op));
  }

  lemma LegalOneMore(w: World, fs: Files, script: seq<Call>, c: Call)
    requires w.Valid() && WellFormed(w, fs) && Legal(w, fs, script) && Request(w, After(w, fs, script), c.u, c.op)
    ensures Legal(w, fs, script + [c])
    ensures After(w, fs, script + [c]) == Next(w, After(w, fs, script), c.u, c.op)
    ensures Replies(w, fs, script + [c])
         == Replies(w, fs, script) + [Reply(w, After(w, fs, script), c.u, c.op)]
  {
    assert (script + [c])[..|script|] == script;
  }

  lemma OwnOneMore(script: seq<Call>, answers: seq<Answer>, c: Call, a: Answer, u: User)
    requires |answers| == |script|
    ensures OwnCalls(script + [c], u) == OwnCalls(script, u) + if c.u == u then [c] else []
    ensures OwnAnswers(script + [c], answers + [a], u)
         == OwnAnswers(script, answers, u) + if c.u == u then [a] else []
  {
    assert (script + [c])[..|script|] == script && (answers + [a])[..|script|] == answers;
  }

  /** The run looks to `u` as if nobody else and nothing else were there. */
  ghost predicate LooksPurged(w: World, fs: Files, script: seq<Call>, u: User)
    requires w.Valid() && WellFormed(w, fs) && Legal(w, fs, script)
  {
    var v, own := VisibleTo(u, fs), OwnCalls(script, u);
    && WellFormed(w, v) && Legal(w, v, own)
    && Replies(w, v, own) == OwnAnswers(script, Replies(w, fs, script), u)
    && After(w, v, own) == VisibleTo(u, After(w, fs, script))
  }

  lemma PurgedOwnStep(w: World, fs: Files, script: seq<Call>, c: Call, u: User)
    requires w.Valid() && WellFormed(w, fs) && Legal(w, fs, script) && LooksPurged(w, fs, script, u)
    requires c.u == u && Request(w, After(w, fs, script), u, c.op)
    ensures Legal(w, fs, script + [c]) && LooksPurged(w, fs, script + [c], u)
  {
    var v, own, now := VisibleTo(u, fs), OwnCalls(script, u), After(w, fs, script);
    LegalOneMore(w, fs, script, c);
    OwnOneMore(script, Replies(w, fs, script), c, Reply(w, now, u, c.op), u);
    OwnStep(w, now, After(w, v, own), u, c.op);
    LegalOneMore(w, v, own, c);
  }

  lemma PurgedOtherStep(w: World, fs: Files, script: seq<Call>, c: Call, u: User)
    requires w.Valid() && WellFormed(w, fs) && Legal(w, fs, script) && LooksPurged(w, fs, script, u)
    requires u.id in w.users && w.users[u.id] == u && Request(w, After(w, fs, script), c.u, c.op)
    requires c.u != u && !Concerns(After(w, fs, script), c.op, u)
    ensures Legal(w, fs, script + [c]) && LooksPurged(w, fs, script + [c], u)
  {
    var now := After(w, fs, script);
    LegalOneMore(w, fs, script, c);
    OwnOneMore(script, Replies(w, fs, script), c, Reply(w, now, c.u, c.op), u);
    UnconcernedStep(w, now, c, u);
    assert OwnCalls(script, u) + [] == OwnCalls(script, u);
  }

  /** What a run looks like to one user: the answers to their calls, and what they see afterwards,
      are those of their calls alone on what they saw before, whatever the calls of others that do
      not concern them do to everything else. */
  lemma {:induction false} PurgedRun(w: World, fs: Files, script: seq<Call>, u: User)
    requires w.Valid() && WellFormed(w, fs) && Legal(w, fs, script) && Apart(w, fs, script, u)
    requires u.id in w.users && w.users[u.id] == u
    ensures LooksPurged(w, fs, script, u)
  {
    if script == [] {
      ViewIsWellFormed(w, fs, u, DoList);
    } else {
      var init, c := script[..|script| - 1], script[|script| - 1];
      PurgedRun(w, fs, init, u);
      if c.u == u { PurgedOwnStep(w, fs, init, c, u); } else { PurgedOtherStep(w, fs, init, c, u); }
      assert script == init + [c];
    }
  }

  /** Two runs by several users, from states that look alike to `u` and with the same calls of `u`:
      whatever the others do, as long as it does not concern `u`, the answers to `u` are the same
      and the states look alike to `u` afterwards. */
  lemma HiddenCallsDoNotMatter(w: World, fs: Files, gs: Files, a: seq<Call>, b: seq<Call>, u: User)
    requires w.Valid() && WellFormed(w, fs) && WellFormed(w, gs) && u.id in w.users && w.users[u.id] == u
    requires Legal(w, fs, a) && Apart(w, fs, a, u) && Legal(w, gs, b) && Apart(w, gs, b, u)
    requires VisibleTo(u, fs) == VisibleTo(u, gs) && OwnCalls(a, u) == OwnCalls(b, u)
    ensures OwnAnswers(a, Replies(w, fs, a), u) == OwnAnswers(b, Replies(w, gs, b), u)
    ensures VisibleTo(u, After(w, fs, a)) == VisibleTo(u, After(w, gs, b))
  {
    PurgedRun(w, fs, a, u);
    PurgedRun(w, gs, b, u);
  }

  /** The same of the repository. */
  method RunSeenBy(repo: Repo, script: seq<Call>, rnds: seq<Random>, u: User) returns (answers: seq<Answer>)
    requires repo.Valid() && Legal(repo.w, repo.plain, script) && Apart(repo.w, repo.plain, script, u)
    requires |rnds| == |script| && forall i :: 0 <= i < |rnds| ==> rnds[i].Sized()
    requires NoCollisions(repo.store.p, Bodies(repo.plain, script))
    requires u.id in repo.w.users && repo.w.users[u.id] == u
    modifies repo, repo.store
    ensures repo.Valid() && |answers| == |script|
    ensures var v, own := VisibleTo(u, old(repo.plain)), OwnCalls(script, u);
      && WellFormed(repo.w, v) && Legal(repo.w, v, own)
      && OwnAnswers(script, answers, u) == Replies(repo.w, v, own)
      && VisibleTo(u, repo.plain) == After(repo.w, v, own)
  {
    PurgedRun(repo.w, repo.plain, script, u);
    answers := Run(repo, script, rnds);
  }

  // ----- who holds which role -----

  /** What one request makes of the grants `g` of file `id`: only its owner's requests count. */
  ghost function GrantsAfter(w: World, owner: UserId, id: NodeId, g: map<UserId, Role>, c: Call): map<UserId, Role> {
    if c.u.id != owner then g
    else match c.op
      case DoShare(i, grantee, role) =>
        if i == id && role in {Editor, Viewer} && w.Knows(grantee) && w.IdOf(grantee) != owner
        then g[w.IdOf(grantee) := role] else g
      case DoRevoke(i, grantee) => if i == id && w.Knows(grantee) then g - {w.IdOf(grantee)} else g
      case _ => g
  }

  /** The grants of file `id` as its owner's requests leave them, starting from `g`. */
  ghost function FoldGrants(w: World, owner: UserId, id: NodeId, g: map<UserId, Role>, script: seq<Call>)
    : map<UserId, Role>
  {
    if script == [] then g
    else
      var i := |script| - 1;
      GrantsAfter(w, owner, id, FoldGrants(w, owner, id, g, script[..i]), script[i])
  }

  lemma NamedGrants(w: World, fs: Files, c: Call, id: NodeId)
    requires w.Valid() && WellFormed(w, fs) && Request(w, fs, c.u, c.op) && id in fs
    requires (c.op.DoShare? || c.op.DoRevoke?) && c.op.id == id
    ensures var fs' := Next(w, fs, c.u, c.op);
      id in fs' && fs'[id].owner == fs[id].owner
      && fs'[id].grants == GrantsAfter(w, fs[id].owner, id, fs[id].grants, c)
  {
    OnlyOwnersShareOrDelete(Some(c.u), Acl(fs[id]), Action.Share);
    if c.op.DoShare? && c.op.role !in {Editor, Viewer} {
    } else if Allowed(fs, c.u, id, Action.Share) {
      NamedStep(w, fs, c.u, c.op);
      var f := fs[id];
      if c.op.DoRevoke? && w.Knows(c.op.grantee) && w.IdOf(c.op.grantee) !in f.grants {
        assert f.grants - {w.IdOf(c.op.grantee)} == f.grants;
      }
    }
  }

  lemma StepGrants(w: World, fs: Files, c: Call, id: NodeId)
    requires w.Valid() && WellFormed(w, fs) && Request(w, fs, c.u, c.op) && id in fs
    ensures var fs' := Next(w, fs, c.u, c.op);
      id in fs' ==>
        && fs'[id].owner == fs[id].owner
        && fs'[id].grants == GrantsAfter(w, fs[id].owner, id, fs[id].grants, c)
  {
    if c.op.DoShare? || c.op.DoRevoke? {
      if c.op.id == id { NamedGrants(w, fs, c, id); }
    } else if !c.op.DoUpload? && !c.op.DoList? && Allowed(fs, c.u, c.op.id, Needs(c.op)) {
      AuthorizedStep(w, fs, c.u, c.op);
    }
  }

  /** How file `id` came about and what its owner's requests have granted since: the run uploaded
      it as request `i`, or it was there before (-1). */
  ghost predicate Granted(w: World, fs: Files, script: seq<Call>, id: NodeId, i: int, f: File) {
    if i == -1 then
      id in fs && f.owner == fs[id].owner && f.grants == FoldGrants(w, f.owner, id, fs[id].grants, script)
    else
      && 0 <= i < |script| && script[i].op.DoUpload? && script[i].op.id == id && script[i].u.id == f.owner
      && f.grants == FoldGrants(w, f.owner, id, map[], script[i + 1..])
  }

  lemma FoldOneMore(w: World, owner: UserId, id: NodeId, g: map<UserId, Role>, script: seq<Call>, c: Call)
    ensures FoldGrants(w, owner, id, g, script + [c])
         == GrantsAfter(w, owner, id, FoldGrants(w, owner, id, g, script), c)
  {
    assert (script + [c])[..|script|] == script;
  }

  lemma UploadStarts(w: World, fs: Files, c: Call, id: NodeId)
    requires w.Valid() && WellFormed(w, fs) && Request(w, fs, c.u, c.op) && id !in fs && id in Next(w, fs, c.u, c.op)
    ensures c.op.DoUpload? && c.op.id == id
    ensures Next(w, fs, c.u, c.op)[id].owner == c.u.id && Next(w, fs, c.u, c.op)[id].grants == map[]
  {
  }

  lemma OneMoreCall(w: World, fs: Files, script: seq<Call>, c: Call, id: NodeId, i: int, before: Files)
    requires w.Valid() && WellFormed(w, before) && Request(w, before, c.u, c.op)
    requires id in before && id in Next(w, before, c.u, c.op) && Granted(w, fs, script, id, i, before[id])
    ensures Granted(w, fs, script + [c], id, i, Next(w, before, c.u, c.op)[id])
  {
    StepGrants(w, before, c, id);
    var owner := before[id].owner;
    if i == -1 {
      FoldOneMore(w, owner, id, fs[id].grants, script, c);
    } else {
      assert (script + [c])[i + 1..] == script[i + 1..] + [c];
      FoldOneMore(w, owner, id, map[], script[i + 1..], c);
    }
  }

  /** Over any run from any state, in particular from the empty one, the grants of every file are
      the fold of its owner's Share and Revoke requests since its upload, and its owner is who
      uploaded it: nobody else's requests count. */
  lemma {:induction false} GrantsAreTheOwnersDoing(w: World, fs: Files, script: seq<Call>, id: NodeId) returns (i: int)
    requires w.Valid() && WellFormed(w, fs) && Legal(w, fs, script) && id in After(w, fs, script)
    ensures Granted(w, fs, script, id, i, After(w, fs, script)[id])
    ensures fs == map[] ==> i >= 0
  {
    if script == [] {
      i := -1;
    } else {
      var init, c := script[..|script| - 1], script[|script| - 1];
      var before := After(w, fs, init);
      assert script == init + [c];
      if id in before {
        i := GrantsAreTheOwnersDoing(w, fs, init, id);
        OneMoreCall(w, fs, init, c, id, i, before);
      } else {
        i := |init|;
        UploadStarts(w, before, c, id);
        assert script[i + 1..] == [];
      }
    }
  }

  /** Owners are granted nothing, and a file is listed exactly when the matrix lets the user view
      it. */
  lemma ListedExactly(w: World, fs: Files, u: User, id: NodeId)
    requires w.Valid() && WellFormed(w, fs) && u.id in w.users && w.users[u.id] == u
    ensures var listed := Reply(w, fs, u, DoList);
      && listed.Listing?
      && ((exists r :: r in listed.nodes && r.id == id) <==> Allowed(fs, u, id, Action.View))
      && (forall r :: r in listed.nodes && r.id == id ==> id in fs && r == Info(w, u, id, fs[id]))
      && (id in fs ==> fs[id].owner !in fs[id].grants)
  {
    var listed := Reply(w, fs, u, DoList);
    if Allowed(fs, u, id, Action.View) {
      assert Info(w, u, id, fs[id]) in listed.nodes;
    }
  }

  /** After any sequential run, List shows a user exactly the nodes that authorize lets them view,
      each as authorize sees it, role included; and no owner is among the grantees. */
  method ListIsTheMatrix(repo: Repo, script: seq<Call>, rnds: seq<Random>, u: User, id: NodeId)
    returns (rows: seq<NodeInfo>, st: Option<NodeState>)
    requires repo.Valid() && Legal(repo.w, repo.plain, script)
    requires |rnds| == |script| && forall i :: 0 <= i < |rnds| ==> rnds[i].Sized()
    requires NoCollisions(repo.store.p, Bodies(repo.plain, script))
    requires u.id in repo.w.users && repo.w.users[u.id] == u
    modifies repo, repo.store
    ensures (exists r :: r in rows && r.id == id) <==> st.Some?
    ensures forall r :: r in rows && r.id == id ==> st.Some? && r == st.value.info
    ensures st.Some? ==>
      && Can(Some(u), st.value.acl, Action.View) && st.value.acl.ownerId !in st.value.acl.grants
      && st.value.info.myRole ==
         (if u.id == st.value.acl.ownerId then Owner else Grantee(st.value.acl.grants[u.id]))
  {
    var answers := Run(repo, script, rnds);
    rows := repo.List(u);
    st := repo.Authorize(u, id, Action.View);
    ListedExactly(repo.w, repo.plain, u, id);
    ghost var listed := Reply(repo.w, repo.plain, u, DoList);
    assert listed.nodes == set r | r in rows;
    assert forall r :: r in rows <==> r in listed.nodes;
  }

  // ----- names -----

  lemma NextNames(w: World, fs: Files, c: Call, id: NodeId)
    requires w.Valid() && WellFormed(w, fs) && Request(w, fs, c.u, c.op) && id in Next(w, fs, c.u, c.op)
    ensures var name := Next(w, fs, c.u, c.op)[id].name;
      (id in fs && name == fs[id].name) || exists typed :: name == w.sanitize(typed)
  {
  }

  /** With SanitizeFilename for `sanitize`, every file of every run has a nonempty name of at most
      255 bytes that names no path. */
  lemma {:induction false} StoredNamesAreNames(w: World, isPrint: Filename.PrintTable, script: seq<Call>, id: NodeId)
    requires w.Valid() && Legal(w, map[], script) && id in After(w, map[], script)
    requires forall typed :: w.sanitize(typed) == Filename.Sanitize(isPrint, typed)
    ensures var name := After(w, map[], script)[id].name;
      0 < |name| <= Filename.MAX_FILENAME_LEN && 47 !in name && 92 !in name
  {
    if script == [] {
    } else {
      var init, c := script[..|script| - 1], script[|script| - 1];
      var before := After(w, map[], init);
      NextNames(w, before, c, id);
      if id in before { StoredNamesAreNames(w, isPrint, init, id); }
      if typed :| After(w, map[], script)[id].name == w.sanitize(typed) {
        Filename.SanitizedIsAName(isPrint, typed);
      }
    }
  }
}
