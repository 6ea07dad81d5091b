/** A file from its upload to its downloads, whatever happens to the other files in between. */
module Custody {
  import opened Prelude
  import opened Authz
  import opened Vault
  import opened Repository
  import Roles

  /** The first call of a run. */
  lemma {:induction false} FirstCall(w: World, fs: Files, c: Call, script: seq<Call>)
    requires w.Valid() && WellFormed(w, fs) && Legal(w, fs, [c] + script)
    ensures Request(w, fs, c.u, c.op) && Legal(w, Next(w, fs, c.u, c.op), script)
    ensures After(w, fs, [c] + script) == After(w, Next(w, fs, c.u, c.op), script)
    ensures Replies(w, fs, [c] + script) == [Reply(w, fs, c.u, c.op)] + Replies(w, Next(w, fs, c.u, c.op), script)
  {
    var all := [c] + script;
    if script == [] {
      assert all == [c] && [c][..0] == [];
      assert After(w, fs, []) == fs && Replies(w, fs, []) == [];
    } else {
      var i := |script| - 1;
      assert all[..|all| - 1] == [c] + script[..i] && all[|all| - 1] == script[i];
      FirstCall(w, fs, c, script[..i]);
    }
  }

  /** What an accepted upload stores is there after any calls that are not its owner's delete of it:
      with the uploader as owner and the bytes uploaded. */
  lemma UploadStays(w: World, fs: Files, c: Call, script: seq<Call>)
    requires w.Valid() && WellFormed(w, fs) && Legal(w, fs, [c] + script) && c.op.DoUpload?
    requires w.validate(c.op.declared, if |c.op.body| <= 512 then c.op.body else c.op.body[..512]).Some?
    requires |c.op.body| <= w.maxBytes
    requires forall d :: d in script && d.op == DoDelete(c.op.id) ==> d.u.id != c.u.id
    ensures var fs' := After(w, fs, [c] + script);
      c.op.id in fs' && fs'[c.op.id].owner == c.u.id && fs'[c.op.id].content == c.op.body
  {
    FirstCall(w, fs, c, script);
    Roles.Appears(w, fs, c.u, c.op, c.op.id);
    Roles.StaysUntilDeleted(w, Next(w, fs, c.u, c.op), script, c.op.id);
  }

  /** The same of the repository: the upload succeeds, and after any such calls a download gives
      exactly the bytes uploaded, to whoever owns the file or holds a grant on it, and to nobody
      else. */
  method UploadThenDownload(repo: Repo, c: Call, script: seq<Call>, rnds: seq<Random>, v: User)
    returns (answers: seq<Answer>, a: Answer)
    requires repo.Valid() && Legal(repo.w, repo.plain, [c] + script) && c.op.DoUpload?
    requires repo.w.validate(c.op.declared, if |c.op.body| <= 512 then c.op.body else c.op.body[..512]).Some?
    requires |c.op.body| <= repo.w.maxBytes
    requires forall d :: d in script && d.op == DoDelete(c.op.id) ==> d.u.id != c.u.id
    requires |rnds| == |script| + 1 && forall i :: 0 <= i < |rnds| ==> rnds[i].Sized()
    requires NoCollisions(repo.store.p, Bodies(repo.plain, [c] + script))
    requires v.id in repo.w.users && repo.w.users[v.id] == v
    modifies repo, repo.store
    ensures repo.Valid() && |answers| == |script| + 1 && answers[0].Node? && answers[0].info.id == c.op.id
    ensures c.op.id in repo.plain && repo.plain[c.op.id].owner == c.u.id
    ensures if v.id == c.u.id || v.id in repo.plain[c.op.id].grants then a.Content? && a.content == c.op.body
            else a == Denied(NotFound)
  {
    ghost var w, fs := repo.w, repo.plain;
    FirstCall(w, fs, c, script);
    Roles.UploadAnswer(w, fs, c.u, c.op);
    UploadStays(w, fs, c, script);
    answers := Run(repo, [c] + script, rnds);
    a := repo.Download(v, c.op.id);
  }
}
