/** Registration and invites of internal/auth/registration.go and Register of
    internal/auth/service.go, under concurrent requests: one SQL statement a step. Every
    registration takes one advisory lock for its transaction; an invite row is locked by the SELECT
    that finds it and by the UPDATE that revokes it. now() is the start of the transaction. */
module Registration {
  import opened Prelude

  /** Requests are numbered; an account carries the number of its registration. */
  type Pid = int
  type InviteId = int
  /** Stands for the hash of a normalized invite code. */
  type Code = int

  const MINUTE := 60_000_000
  const INVITE_DEFAULT_TTL := 7 * 24 * 60 * MINUTE
  const INVITE_MIN_TTL := MINUTE
  const INVITE_MAX_TTL := 30 * 24 * 60 * MINUTE

  datatype Mode = Open | InviteOnly | Closed

  /** maxUsers <= 0 is unlimited. */
  datatype Policy = Policy(mode: Mode, maxUsers: int)

  datatype Admission = Bootstrap | ByInvite(invite: InviteId) | Anyone

  datatype Account = Account(username: string, admission: Admission)

  datatype Invite = Invite(code: Code, expiresAt: int, usedBy: Option<Pid>, usedAt: Option<int>, revokedAt: Option<int>)

  datatype Refusal = RegistrationClosed | InviteRequired | InviteInvalid | UserLimitReached | UsernameTaken | OtherError

  /** The statement a registration is about to run. */
  datatype RegisterPc =
    | Lock // SELECT pg_advisory_xact_lock
    | CountUsers
    | SelectInvite
    | InsertUser(admission: Admission)
    | ConsumeInvite(invite: InviteId)
    | CommitAccount(admission: Admission)
    | Registered
    | Refused(reason: Refusal)

  datatype RevokePc = UpdateInvite | CommitRevoke | RevokeDone | NotFound | RevokeFailed

  datatype Proc =
    | Register(username: string, code: Option<Code>, startedAt: int, pc: RegisterPc) // no code: blank
    | Revoke(target: InviteId, startedAt: int, rpc: RevokePc)

  /** What is committed, under a fixed policy. */
  datatype Db = Db(policy: Policy, accounts: map<Pid, Account>, invites: map<InviteId, Invite>)

  datatype State = State(db: Db, procs: map<Pid, Proc>, born: set<Pid>, clock: int)

  function Init(policy: Policy): State {
    State(Db(policy, map[], map[]), map[], {}, 0)
  }

  datatype Step =
    | StartRegister(p: Pid, username: string, code: Option<Code>)
    | StartRevoke(p: Pid, target: InviteId)
    | IssueInvite(id: InviteId, newCode: Code, ttl: int)
    | Tick(p: Pid)
    | Fail(p: Pid)
    | Crash
    | Wait(d: nat)

  // ----- decisions -----

  /** What the policy makes of a registration, before any invite is looked up. */
  datatype Decision = Admit(admission: Admission) | AskInvite | Deny(reason: Refusal)

  function Decide(pol: Policy, count: nat, code: Option<Code>): Decision {
    if count == 0 then Admit(Bootstrap)
    else if pol.maxUsers > 0 && count >= pol.maxUsers then Deny(UserLimitReached)
    else match pol.mode
      case Closed => Deny(RegistrationClosed)
      case InviteOnly => if code.None? then Deny(InviteRequired) else AskInvite
      case Open => Admit(Anyone)
  }

  /** used_at IS NULL AND revoked_at IS NULL */
  predicate Unspent(v: Invite) {
    v.usedAt.None? && v.revokedAt.None?
  }

  predicate Redeemable(v: Invite, code: Code, now: int) {
    v.code == code && Unspent(v) && v.expiresAt > now
  }

  // ----- locks -----

  predicate HoldsLock(q: Proc) {
    q.Register? && !q.pc.Lock? && !q.pc.Registered? && !q.pc.Refused?
  }

  predicate HoldsInvite(q: Proc, i: InviteId) {
    match q
    case Register(_, _, _, pc) =>
      (pc.InsertUser? && pc.admission == ByInvite(i)) || pc == ConsumeInvite(i) || pc == CommitAccount(ByInvite(i))
    case Revoke(target, _, rpc) => rpc.CommitRevoke? && target == i
  }

  predicate LockFree(s: State) {
    forall q :: q in s.procs ==> !HoldsLock(s.procs[q])
  }

  predicate InviteFree(s: State, i: InviteId) {
    forall q :: q in s.procs ==> !HoldsInvite(s.procs[q], i)
  }

  // ----- steps -----

  function Goto(s: State, p: Pid, r: Proc, pc: RegisterPc): State
    requires r.Register?
  {
    s.(procs := s.procs[p := r.(pc := pc)])
  }

  function GotoRevoke(s: State, p: Pid, r: Proc, rpc: RevokePc): State
    requires r.Revoke?
  {
    s.(procs := s.procs[p := r.(rpc := rpc)])
  }

  ghost predicate Matches(db: Db, i: InviteId, r: Proc)
    requires r.Register?
  {
    r.code.Some? && i in db.invites && Redeemable(db.invites[i], r.code.value, r.startedAt)
  }

  /** Committed accounts only: any other registration waits for the advisory lock. */
  predicate NameTaken(db: Db, username: string) {
    exists a :: a in db.accounts && db.accounts[a].username == username
  }

  /** What a registration commits. */
  function WithAccount(db: Db, p: Pid, r: Proc, a: Admission): Db
    requires r.Register?
  {
    db.(accounts := db.accounts[p := Account(r.username, a)],
        invites := if a.ByInvite? && a.invite in db.invites
                   then db.invites[a.invite := db.invites[a.invite].(usedBy := Some(p), usedAt := Some(r.startedAt))]
                   else db.invites)
  }

  /** What a revocation commits. */
  function WithRevocation(db: Db, r: Proc): Db
    requires r.Revoke?
  {
    if r.target !in db.invites then db
    else db.(invites := db.invites[r.target := db.invites[r.target].(revokedAt := Some(r.startedAt))])
  }

  ghost function TickRegister(s: State, p: Pid, r: Proc): State
    requires r.Register?
  {
    match r.pc
    case Lock => if LockFree(s) then Goto(s, p, r, CountUsers) else s
    case CountUsers =>
      (match Decide(s.db.policy, |s.db.accounts|, r.code)
       case Admit(a) => Goto(s, p, r, InsertUser(a))
       case AskInvite => Goto(s, p, r, SelectInvite)
       case Deny(reason) => Goto(s, p, r, Refused(reason)))
    case SelectInvite =>
      if !(exists i :: Matches(s.db, i, r)) then Goto(s, p, r, Refused(InviteInvalid))
      else
        var i :| Matches(s.db, i, r);
        if InviteFree(s, i) then Goto(s, p, r, InsertUser(ByInvite(i))) else s
    case InsertUser(a) =>
      if NameTaken(s.db, r.username) then Goto(s, p, r, Refused(UsernameTaken))
      else if a.ByInvite? then Goto(s, p, r, ConsumeInvite(a.invite))
      else Goto(s, p, r, CommitAccount(a))
    case ConsumeInvite(i) => Goto(s, p, r, CommitAccount(ByInvite(i)))
    case CommitAccount(a) =>
      Goto(s.(db := WithAccount(s.db, p, r, a)), p, r, Registered)
    case _ => s
  }

  function TickRevoke(s: State, p: Pid, r: Proc): State
    requires r.Revoke?
  {
    match r.rpc
    case UpdateInvite =>
      if r.target !in s.db.invites || !Unspent(s.db.invites[r.target]) then GotoRevoke(s, p, r, NotFound)
      else if !InviteFree(s, r.target) then s
      else GotoRevoke(s, p, r, CommitRevoke)
    case CommitRevoke =>
      GotoRevoke(s.(db := WithRevocation(s.db, r)), p, r, RevokeDone)
    case _ => s
  }

  /** An error rolls the transaction back. */
  function FailProc(s: State, p: Pid, q: Proc): State {
    match q
    case Register(_, _, _, pc) => if pc.Registered? || pc.Refused? then s else Goto(s, p, q, Refused(OtherError))
    case Revoke(_, _, rpc) => if rpc.UpdateInvite? || rpc.CommitRevoke? then GotoRevoke(s, p, q, RevokeFailed) else s
  }

  ghost function Do(s: State, step: Step): State {
    match step
    case StartRegister(p, username, code) =>
      if p in s.born then s
      else s.(procs := s.procs[p := Register(username, code, s.clock, Lock)], born := s.born + {p})
    case StartRevoke(p, target) =>
      if p in s.born then s
      else s.(procs := s.procs[p := Revoke(target, s.clock, UpdateInvite)], born := s.born + {p})
    case IssueInvite(id, code, ttl) =>
      if id in s.db.invites || CodeTaken(s.db, code) || !(INVITE_MIN_TTL <= Lifetime(ttl) <= INVITE_MAX_TTL) then s
      else s.(db := s.db.(invites := s.db.invites[id := Invite(code, s.clock + Lifetime(ttl), None, None, None)]))
    case Tick(p) =>
      if p !in s.procs then s
      else if s.procs[p].Register? then TickRegister(s, p, s.procs[p])
      else TickRevoke(s, p, s.procs[p])
    case Fail(p) => if p !in s.procs then s else FailProc(s, p, s.procs[p])
    case Crash => s.(procs := map[])
    case Wait(d) => s.(clock := s.clock + d)
  }

  /** Zero asks for the default. */
  function Lifetime(ttl: int): int {
    if ttl == 0 then INVITE_DEFAULT_TTL else ttl
  }

  predicate CodeTaken(db: Db, code: Code) {
    exists i :: i in db.invites && db.invites[i].code == code
  }

  ghost function Exec(s: State, steps: seq<Step>): State {
    if steps == [] then s else Do(Exec(s, steps[..|steps| - 1]), steps[|steps| - 1])
  }

  // ----- what holds in every run -----

  predicate WithinCap(policy: Policy, count: nat) {
    policy.maxUsers > 0 ==> count <= policy.maxUsers
  }

  /** A decided admission is still right: nobody else can have committed an account since, and the
      invite is the one whose code was presented. */
  ghost predicate Admissible(db: Db, a: Admission, r: Proc)
    requires r.Register?
  {
    && WithinCap(db.policy, |db.accounts| + 1)
    && match a
       case Bootstrap => db.accounts == map[]
       case ByInvite(i) =>
         && db.policy.mode == InviteOnly && i in db.invites && Unspent(db.invites[i])
         && r.startedAt < db.invites[i].expiresAt && r.code == Some(db.invites[i].code)
       case Anyone => db.policy.mode == Open
  }

  /** What a registration that succeeded has committed. */
  ghost predicate AdmittedAs(db: Db, p: Pid, r: Proc)
    requires r.Register? && p in db.accounts
  {
    && db.accounts[p].username == r.username
    && match db.accounts[p].admission
       case ByInvite(i) => i in db.invites && r.code == Some(db.invites[i].code)
       case _ => true
  }

  ghost predicate RegisterOk(db: Db, p: Pid, r: Proc)
    requires r.Register?
  {
    && (p in db.accounts <==> r.pc.Registered?)
    && match r.pc
       case SelectInvite => db.policy.mode == InviteOnly && WithinCap(db.policy, |db.accounts| + 1)
       case InsertUser(a) => Admissible(db, a, r)
       case ConsumeInvite(i) => Admissible(db, ByInvite(i), r) && !NameTaken(db, r.username)
       case CommitAccount(a) => Admissible(db, a, r) && !NameTaken(db, r.username)
       case Registered => AdmittedAs(db, p, r)
       case _ => true
  }

  ghost predicate RevokeOk(db: Db, p: Pid, r: Proc)
    requires r.Revoke?
  {
    && p !in db.accounts
    && match r.rpc
       case CommitRevoke => r.target in db.invites && Unspent(db.invites[r.target])
       case RevokeDone => r.target in db.invites && db.invites[r.target].revokedAt == Some(r.startedAt)
       case _ => true
  }

  ghost predicate ProcOk(db: Db, p: Pid, q: Proc) {
    if q.Register? then RegisterOk(db, p, q) else RevokeOk(db, p, q)
  }

  /** An invite is used by the one account it admitted, before it expired, or revoked, or neither. */
  ghost predicate InviteOk(db: Db, i: InviteId)
    requires i in db.invites
  {
    var v := db.invites[i];
    && (v.usedBy.Some? <==> v.usedAt.Some?)
    && (v.usedAt.Some? ==> v.revokedAt.None? && v.usedAt.value < v.expiresAt)
    && (v.usedBy.Some? ==> v.usedBy.value in db.accounts && db.accounts[v.usedBy.value].admission == ByInvite(i))
  }

  /** An account was admitted by what the policy asks for. */
  ghost predicate AccountOk(db: Db, a: Pid)
    requires a in db.accounts
  {
    match db.accounts[a].admission
    case Bootstrap => true
    case ByInvite(i) => db.policy.mode == InviteOnly && i in db.invites && db.invites[i].usedBy == Some(a)
    case Anyone => db.policy.mode == Open
  }

  ghost predicate Tables(db: Db) {
    && (forall i :: i in db.invites ==> InviteOk(db, i))
    && (forall a :: a in db.accounts ==> AccountOk(db, a))
    && (forall a, b :: a in db.accounts && b in db.accounts ==>
          db.accounts[a].username == db.accounts[b].username ==> a == b)
    && (forall a, b :: a in db.accounts && b in db.accounts ==>
          db.accounts[a].admission == db.accounts[b].admission == Bootstrap ==> a == b)
    && (forall i, j :: i in db.invites && j in db.invites && db.invites[i].code == db.invites[j].code ==> i == j)
    && WithinCap(db.policy, |db.accounts|)
  }

  ghost predicate ProcsOk(s: State) {
    && s.procs.Keys <= s.born && s.db.accounts.Keys <= s.born
    && (forall p :: p in s.procs ==> ProcOk(s.db, p, s.procs[p]))
  }

  ghost predicate Exclusive(procs: map<Pid, Proc>) {
    && (forall p, q :: p in procs && q in procs && HoldsLock(procs[p]) && HoldsLock(procs[q]) ==> p == q)
    && (forall p, q, i :: p in procs && q in procs && HoldsInvite(procs[p], i) && HoldsInvite(procs[q], i) ==> p == q)
  }

  ghost predicate Sane(s: State) {
    Tables(s.db) && ProcsOk(s) && Exclusive(s.procs)
  }

  /** A statement that changes no committed row and takes only free locks. */
  lemma MoveKeepsSane(s: State, s': State, p: Pid)
    requires Sane(s) && p in s.procs && p in s'.procs && s'.procs == s.procs[p := s'.procs[p]]
    requires s' == s.(procs := s'.procs) && ProcOk(s.db, p, s'.procs[p])
    requires HoldsLock(s'.procs[p]) ==> HoldsLock(s.procs[p]) || LockFree(s)
    requires forall i :: HoldsInvite(s'.procs[p], i) ==> HoldsInvite(s.procs[p], i) || InviteFree(s, i)
    ensures Sane(s')
  {
  }

  lemma NextStatement(s: State, p: Pid)
    requires Sane(s) && p in s.procs && s.procs[p].Register? && !s.procs[p].pc.CommitAccount?
    ensures var s' := TickRegister(s, p, s.procs[p]);
      p in s'.procs && s'.procs[p].Register? && RegisterOk(s.db, p, s'.procs[p])
  {
    assert ProcOk(s.db, p, s.procs[p]);
  }

  lemma NextMoves(s: State, p: Pid)
    requires p in s.procs && s.procs[p].Register? && !s.procs[p].pc.CommitAccount?
    ensures var s' := TickRegister(s, p, s.procs[p]);
      p in s'.procs && s' == s.(procs := s.procs[p := s'.procs[p]])
  {
    var s' := TickRegister(s, p, s.procs[p]);
    if s' == s { assert s.procs[p := s.procs[p]] == s.procs; }
  }

  lemma NextTakesFreeLocks(s: State, p: Pid, i: InviteId)
    requires p in s.procs && s.procs[p].Register? && !s.procs[p].pc.CommitAccount?
    ensures var q, s' := s.procs[p], TickRegister(s, p, s.procs[p]);
      p in s'.procs
      && (HoldsLock(s'.procs[p]) ==> HoldsLock(q) || LockFree(s))
      && (HoldsInvite(s'.procs[p], i) ==> HoldsInvite(q, i) || InviteFree(s, i))
  {
  }

  lemma RegisterMoves(s: State, p: Pid)
    requires Sane(s) && p in s.procs && s.procs[p].Register? && !s.procs[p].pc.CommitAccount?
    ensures Sane(TickRegister(s, p, s.procs[p]))
  {
    NextStatement(s, p);
    NextMoves(s, p);
    var next := TickRegister(s, p, s.procs[p]).procs[p];
    MovedIsSane(s, p, next, TickRegister(s, p, s.procs[p]));
  }

  lemma MovedIsSane(s: State, p: Pid, next: Proc, s': State)
    requires Sane(s) && p in s.procs && s.procs[p].Register? && !s.procs[p].pc.CommitAccount?
    requires s' == TickRegister(s, p, s.procs[p]) == s.(procs := s.procs[p := next])
    requires next.Register? && RegisterOk(s.db, p, next)
    ensures Sane(s')
  {
    forall i
      ensures HoldsInvite(next, i) ==> HoldsInvite(s.procs[p], i) || InviteFree(s, i)
    {
      NextTakesFreeLocks(s, p, i);
    }
    NextTakesFreeLocks(s, p, 0);
    MoveKeepsSane(s, s', p);
  }

  /** Between the decision and the commit no other account appears: the advisory lock. */
  lemma CommitTables(db: Db, p: Pid, r: Proc, a: Admission)
    requires Tables(db) && r.Register? && r.pc == CommitAccount(a) && RegisterOk(db, p, r)
    ensures Tables(WithAccount(db, p, r, a))
  {
    var db' := WithAccount(db, p, r, a);
    assert |db'.accounts| == |db.accounts| + 1;
    forall k | k in db'.accounts ensures AccountOk(db', k) {
      if k != p { assert AccountOk(db, k); }
    }
    forall i | i in db'.invites ensures InviteOk(db', i) {
      assert InviteOk(db, i);
    }
  }

  /** A process that holds neither the advisory lock nor this invite does not notice. */
  lemma CommitKeepsOthers(db: Db, p: Pid, r: Proc, a: Admission, q: Pid, other: Proc)
    requires Tables(db) && r.Register? && r.pc == CommitAccount(a) && RegisterOk(db, p, r)
    requires q != p && ProcOk(db, q, other) && !HoldsLock(other)
    requires a.ByInvite? ==> !HoldsInvite(other, a.invite)
    ensures ProcOk(WithAccount(db, p, r, a), q, other)
  {
  }

  lemma CommitSane(s: State, p: Pid)
    requires Sane(s) && p in s.procs && s.procs[p].Register? && s.procs[p].pc.CommitAccount?
    ensures Sane(TickRegister(s, p, s.procs[p]))
  {
    var r, a := s.procs[p], s.procs[p].pc.admission;
    var s' := TickRegister(s, p, r);
    assert ProcOk(s.db, p, r);
    CommitTables(s.db, p, r, a);
    forall q | q in s'.procs
      ensures ProcOk(s'.db, q, s'.procs[q])
    {
      if q != p {
        assert HoldsLock(r) && (a.ByInvite? ==> HoldsInvite(r, a.invite));
        CommitKeepsOthers(s.db, p, r, a, q, s.procs[q]);
      }
    }
  }

  lemma RevocationTables(db: Db, p: Pid, r: Proc)
    requires Tables(db) && r.Revoke? && r.rpc.CommitRevoke? && RevokeOk(db, p, r)
    ensures Tables(WithRevocation(db, r))
  {
    var db' := WithRevocation(db, r);
    forall k | k in db'.accounts ensures AccountOk(db', k) { assert AccountOk(db, k) && InviteOk(db, r.target); }
    forall i | i in db'.invites ensures InviteOk(db', i) { assert InviteOk(db, i); }
  }

  lemma RevokeCommitSane(s: State, p: Pid)
    requires Sane(s) && p in s.procs && s.procs[p].Revoke? && s.procs[p].rpc.CommitRevoke?
    ensures Sane(TickRevoke(s, p, s.procs[p]))
  {
    var r, s' := s.procs[p], TickRevoke(s, p, s.procs[p]);
    assert ProcOk(s.db, p, r) && HoldsInvite(r, r.target) && InviteOk(s.db, r.target);
    RevocationTables(s.db, p, r);
    forall q | q in s'.procs
      ensures ProcOk(s'.db, q, s'.procs[q])
    {
      assert ProcOk(s.db, q, s.procs[q]);
      assert q != p ==> !HoldsInvite(s.procs[q], r.target);
    }
  }

  lemma RevokeSane(s: State, p: Pid)
    requires Sane(s) && p in s.procs && s.procs[p].Revoke?
    ensures Sane(TickRevoke(s, p, s.procs[p]))
  {
    if s.procs[p].rpc.CommitRevoke? {
      RevokeCommitSane(s, p);
    } else {
      var s' := TickRevoke(s, p, s.procs[p]);
      assert ProcOk(s.db, p, s.procs[p]);
      if s' != s { MoveKeepsSane(s, s', p); }
    }
  }

  lemma FailSane(s: State, p: Pid)
    requires Sane(s) && p in s.procs
    ensures Sane(FailProc(s, p, s.procs[p]))
  {
    var s' := FailProc(s, p, s.procs[p]);
    assert ProcOk(s.db, p, s.procs[p]);
    if s' != s { MoveKeepsSane(s, s', p); }
  }

  lemma StartSane(s: State, p: Pid, q: Proc)
    requires Sane(s) && p !in s.born
    requires if q.Register? then q.pc.Lock? else q.rpc.UpdateInvite?
    ensures Sane(s.(procs := s.procs[p := q], born := s.born + {p}))
  {
    assert p !in s.procs && p !in s.db.accounts;
  }

  lemma IssueTables(db: Db, id: InviteId, v: Invite)
    requires Tables(db) && id !in db.invites && !CodeTaken(db, v.code) && v.usedBy.None? && Unspent(v)
    ensures Tables(db.(invites := db.invites[id := v]))
  {
    var db' := db.(invites := db.invites[id := v]);
    forall a | a in db'.accounts ensures AccountOk(db', a) { assert AccountOk(db, a); }
    forall i | i in db'.invites ensures InviteOk(db', i) { if i != id { assert InviteOk(db, i); } }
  }

  lemma IssueSane(s: State, s': State, id: InviteId)
    requires Sane(s) && id !in s.db.invites && id in s'.db.invites && !CodeTaken(s.db, s'.db.invites[id].code)
    requires s' == s.(db := s.db.(invites := s.db.invites[id := s'.db.invites[id]]))
    requires s'.db.invites[id].usedBy.None? && Unspent(s'.db.invites[id])
    ensures Sane(s')
  {
    IssueTables(s.db, id, s'.db.invites[id]);
    forall k | k in s'.procs ensures ProcOk(s'.db, k, s'.procs[k]) { assert ProcOk(s.db, k, s.procs[k]); }
  }

  lemma TickSane(s: State, p: Pid)
    requires Sane(s)
    ensures Sane(Do(s, Tick(p)))
  {
    if p in s.procs {
      if s.procs[p].Revoke? {
        RevokeSane(s, p);
      } else if s.procs[p].pc.CommitAccount? {
        CommitSane(s, p);
      } else {
        RegisterMoves(s, p);
      }
    }
  }

  lemma StepSane(s: State, step: Step)
    requires Sane(s)
    ensures Sane(Do(s, step))
  {
    match step
    case StartRegister(p, username, code) =>
      if p !in s.born { StartSane(s, p, Register(username, code, s.clock, Lock)); }
    case StartRevoke(p, target) => if p !in s.born { StartSane(s, p, Revoke(target, s.clock, UpdateInvite)); }
    case IssueInvite(id, _, _) => if Do(s, step) != s { IssueSane(s, Do(s, step), id); }
    case Tick(p) => TickSane(s, p);
    case Fail(p) => if p in s.procs { FailSane(s, p); }
    case _ =>
  }

  lemma PolicyStays(s: State, step: Step)
    ensures Do(s, step).db.policy == s.db.policy
  {
  }

  lemma InitSane(policy: Policy)
    ensures Sane(Init(policy))
  {
  }

  lemma {:induction false} RunSane(policy: Policy, steps: seq<Step>)
    ensures Sane(Exec(Init(policy), steps)) && Exec(Init(policy), steps).db.policy == policy
  {
    if steps == [] {
      InitSane(policy);
    } else {
      var s := Exec(Init(policy), steps[..|steps| - 1]);
      RunSane(policy, steps[..|steps| - 1]);
      StepSane(s, steps[|steps| - 1]);
      PolicyStays(s, steps[|steps| - 1]);
    }
  }

  // ----- the results -----

  /** Over every interleaving of registrations and revocations, with errors and crashes anywhere:
      no invite is both used and revoked, it was used before it expired and by one account, which
      it alone admitted; the account count stays within a positive cap. */
  lemma InvitesAdmitOneAccount(policy: Policy, steps: seq<Step>)
    ensures var s := Exec(Init(policy), steps);
      && (policy.maxUsers > 0 ==> |s.db.accounts| <= policy.maxUsers)
      && (forall i :: i in s.db.invites ==>
            var v := s.db.invites[i];
            && !(v.usedAt.Some? && v.revokedAt.Some?)
            && (v.usedAt.Some? ==> v.usedAt.value < v.expiresAt))
      && (forall i, a :: i in s.db.invites && s.db.invites[i].usedBy == Some(a) <==>
            a in s.db.accounts && s.db.accounts[a].admission == ByInvite(i))
      && (forall a, b :: a in s.db.accounts && b in s.db.accounts ==>
            s.db.accounts[a].admission == s.db.accounts[b].admission != Anyone ==> a == b)
  {
    RunSane(policy, steps);
    var s := Exec(Init(policy), steps);
    forall i | i in s.db.invites ensures InviteOk(s.db, i) { }
    forall a | a in s.db.accounts ensures AccountOk(s.db, a) { }
  }

  /** A registration that is refused or fails leaves no account and spends no invite; one that
      reports success has its account. */
  lemma FailedRegistrationConsumesNothing(policy: Policy, steps: seq<Step>, p: Pid)
    ensures var s := Exec(Init(policy), steps);
      p in s.procs && s.procs[p].Register? ==>
        && (s.procs[p].pc.Registered? <==> p in s.db.accounts)
        && (!s.procs[p].pc.Registered? ==> forall i :: i in s.db.invites ==> s.db.invites[i].usedBy != Some(p))
  {
    RunSane(policy, steps);
    var s := Exec(Init(policy), steps);
    if p in s.procs {
      assert ProcOk(s.db, p, s.procs[p]);
      forall i | i in s.db.invites ensures InviteOk(s.db, i) { }
    }
  }

  /** In every run a registration that reports success has the account of the name it asked for, and
      if an invite admitted it, it presented the code of that very invite. */
  lemma RedeemedByItsCode(policy: Policy, steps: seq<Step>, p: Pid, i: InviteId)
    ensures var s := Exec(Init(policy), steps);
      p in s.procs && s.procs[p].Register? && s.procs[p].pc.Registered? ==>
        && p in s.db.accounts && s.db.accounts[p].username == s.procs[p].username
        && (s.db.accounts[p].admission == ByInvite(i) ==>
              i in s.db.invites && s.procs[p].code == Some(s.db.invites[i].code) && s.db.invites[i].usedBy == Some(p))
  {
    RunSane(policy, steps);
    var s := Exec(Init(policy), steps);
    if p in s.procs {
      assert ProcOk(s.db, p, s.procs[p]);
      if p in s.db.accounts { assert AccountOk(s.db, p); }
    }
  }

  /** The accounts the policy lets in: with registration closed only the first one; by invite, the
      first one and one for each used invite. */
  lemma ModeLimitsAccounts(policy: Policy, steps: seq<Step>)
    ensures var s := Exec(Init(policy), steps);
      && (policy.mode == Closed ==> |s.db.accounts| <= 1)
      && (policy.mode == InviteOnly ==> |s.db.accounts| <= 1 + |UsedInvites(s)|)
  {
    RunSane(policy, steps);
    var s := Exec(Init(policy), steps);
    if policy.mode != Open { NobodyElse(s); }
  }

  lemma NobodyElse(s: State)
    requires Tables(s.db) && s.db.policy.mode != Open
    ensures |s.db.accounts| <= 1 + if s.db.policy.mode == Closed then 0 else |UsedInvites(s)|
  {
    forall a | a in s.db.accounts ensures s.db.accounts[a].admission != Anyone { assert AccountOk(s.db, a); }
    OneBootstrap(s);
    if s.db.policy.mode == Closed {
      forall a | a in s.db.accounts ensures a !in ExceptFirst(s) { assert AccountOk(s.db, a); }
      SubsetNotLarger(ExceptFirst(s), {});
    } else {
      forall a | a in ExceptFirst(s) ensures AccountOk(s.db, a) { }
      OneInviteEach(s, ExceptFirst(s));
    }
  }

  /** Every account but the bootstrap one. */
  function ExceptFirst(s: State): set<Pid> {
    set a | a in s.db.accounts && s.db.accounts[a].admission.ByInvite?
  }

  function First(s: State): set<Pid> {
    set a | a in s.db.accounts && s.db.accounts[a].admission.Bootstrap?
  }

  lemma OneBootstrap(s: State)
    requires Tables(s.db) && forall a :: a in s.db.accounts ==> s.db.accounts[a].admission != Anyone
    ensures |s.db.accounts| <= 1 + |ExceptFirst(s)|
  {
    AtMostOne(First(s));
    forall a | a in s.db.accounts ensures a in First(s) + ExceptFirst(s) {
      assert s.db.accounts[a].admission != Anyone;
    }
    SubsetNotLarger(s.db.accounts.Keys, First(s) + ExceptFirst(s));
  }

  lemma AtMostOne(some: set<Pid>)
    requires forall a, b :: a in some && b in some ==> a == b
    ensures |some| <= 1
  {
    if some != {} {
      SomeMember(some);
      var a :| a in some;
      forall b | b in some ensures b in {a} { }
      SubsetNotLarger(some, {a});
    }
  }

  function UsedInvites(s: State): set<InviteId> {
    set i | i in s.db.invites && s.db.invites[i].usedBy.Some?
  }

  /** Different accounts used different invites. */
  lemma {:induction false} OneInviteEach(s: State, some: set<Pid>)
    requires forall a :: a in some ==> a in s.db.accounts && s.db.accounts[a].admission.ByInvite? && AccountOk(s.db, a)
    ensures |some| <= |UsedInvites(s)|
    ensures |some|
         <= |set i | i in s.db.invites && s.db.invites[i].usedBy.Some? && s.db.invites[i].usedBy.value in some|
    decreases |some|
  {
    var used := set i | i in s.db.invites && s.db.invites[i].usedBy.Some? && s.db.invites[i].usedBy.value in some;
    if some == {} {
    } else {
      SomeMember(some);
      var a :| a in some;
      var less := some - {a};
      OneInviteEach(s, less);
      var usedLess := set i | i in s.db.invites && s.db.invites[i].usedBy.Some? && s.db.invites[i].usedBy.value in less;
      var i := s.db.accounts[a].admission.invite;
      assert AccountOk(s.db, a);
      assert i in used && i !in usedLess && usedLess <= used;
      SubsetNotLarger(usedLess + {i}, used);
    }
    SubsetNotLarger(used, UsedInvites(s));
  }

  /** A revocation that reports success holds: the invite is revoked and was never used. */
  lemma RevocationHolds(policy: Policy, steps: seq<Step>, p: Pid)
    ensures var s := Exec(Init(policy), steps);
      p in s.procs && s.procs[p].Revoke? && s.procs[p].rpc == RevokeDone ==>
        var i := s.procs[p].target;
        && i in s.db.invites && s.db.invites[i].revokedAt == Some(s.procs[p].startedAt)
        && s.db.invites[i].usedBy.None? && forall a :: a in s.db.accounts ==> s.db.accounts[a].admission != ByInvite(i)
  {
    RunSane(policy, steps);
    var s := Exec(Init(policy), steps);
    if p in s.procs {
      assert ProcOk(s.db, p, s.procs[p]);
      forall i | i in s.db.invites ensures InviteOk(s.db, i) { }
      forall a | a in s.db.accounts ensures AccountOk(s.db, a) { }
    }
  }

  /** A used invite stays used, by the same account and at the same time, whatever follows. */
  lemma {:induction false} UsedForever(s: State, steps: seq<Step>, i: InviteId)
    requires Sane(s) && i in s.db.invites && s.db.invites[i].usedBy.Some?
    ensures Sane(Exec(s, steps)) && i in Exec(s, steps).db.invites && Exec(s, steps).db.invites[i] == s.db.invites[i]
  {
    if steps == [] {
    } else {
      var init, last := steps[..|steps| - 1], steps[|steps| - 1];
      UsedForever(s, init, i);
      StepSane(Exec(s, init), last);
      UsedStep(Exec(s, init), last, i);
    }
  }

  lemma UsedStep(s: State, step: Step, i: InviteId)
    requires Sane(s) && i in s.db.invites && s.db.invites[i].usedBy.Some?
    ensures i in Do(s, step).db.invites && Do(s, step).db.invites[i] == s.db.invites[i]
  {
    assert InviteOk(s.db, i);
    if step.Tick? && step.p in s.procs {
      assert ProcOk(s.db, step.p, s.procs[step.p]);
    }
  }

  // ----- an undisturbed registration -----

  /** `p` runs its next `k` statements and nobody else does anything. */
  ghost function Solo(s: State, p: Pid, k: nat): State
    decreases k
  {
    if k == 0 then s else Solo(Do(s, Tick(p)), p, k - 1)
  }

  /** How an undisturbed registration ends. */
  datatype Ending = In(admission: Admission) | Out(reason: Refusal)

  /** Registration `r` of `p` ended so, on tables `db`. */
  ghost predicate Ended(s: State, p: Pid, db: Db, r: Proc, e: Ending)
    requires r.Register?
  {
    && p in s.procs
    && match e
       case In(a) => s.procs[p] == r.(pc := Registered) && s.db == WithAccount(db, p, r, a)
       case Out(reason) => s.procs[p] == r.(pc := Refused(reason)) && s.db == db
  }

  lemma {:induction false} SoloRests(s: State, p: Pid, k: nat)
    requires p in s.procs && s.procs[p].Register? && (s.procs[p].pc.Registered? || s.procs[p].pc.Refused?)
    ensures Solo(s, p, k) == s
  {
    if k == 0 {
    } else {
      SoloRests(s, p, k - 1);
    }
  }

  lemma SoloCommits(s: State, p: Pid, k: nat)
    requires p in s.procs && s.procs[p].Register? && s.procs[p].pc.CommitAccount? && k >= 1
    ensures Ended(Solo(s, p, k), p, s.db, s.procs[p], In(s.procs[p].pc.admission))
  {
    SoloRests(Do(s, Tick(p)), p, k - 1);
  }

  lemma SoloInserts(s: State, p: Pid, k: nat)
    requires p in s.procs && s.procs[p].Register? && s.procs[p].pc.InsertUser? && k >= 3
    ensures Ended(Solo(s, p, k), p, s.db, s.procs[p],
      if NameTaken(s.db, s.procs[p].username) then Out(UsernameTaken) else In(s.procs[p].pc.admission))
  {
    var r, s1 := s.procs[p], Do(s, Tick(p));
    if NameTaken(s.db, r.username) {
      SoloRests(s1, p, k - 1);
    } else if s1.procs[p].pc.ConsumeInvite? {
      SoloCommits(Do(s1, Tick(p)), p, k - 2);
    } else {
      SoloCommits(s1, p, k - 1);
    }
  }

  /** The code presented is that of invite `i`, which is neither used nor revoked nor expired. */
  predicate Live(db: Db, i: InviteId, code: Option<Code>, now: int)
    requires i in db.invites
  {
    var v := db.invites[i];
    code == Some(v.code) && v.usedAt == None && v.revokedAt == None && now < v.expiresAt
  }

  /** The invite found is one whose code was presented, not spent and not expired. */
  lemma SoloSelects(s: State, p: Pid, k: nat) returns (i: InviteId)
    requires p in s.procs && s.procs[p].Register? && s.procs[p].pc.SelectInvite? && k >= 4
    requires forall i :: InviteFree(s, i)
    ensures var r := s.procs[p];
      if exists v :: v in s.db.invites && Live(s.db, v, r.code, r.startedAt) then
        && i in s.db.invites && Live(s.db, i, r.code, r.startedAt)
        && Ended(Solo(s, p, k), p, s.db, r, if NameTaken(s.db, r.username) then Out(UsernameTaken) else In(ByInvite(i)))
      else Ended(Solo(s, p, k), p, s.db, r, Out(InviteInvalid))
  {
    var r, s1 := s.procs[p], Do(s, Tick(p));
    i := 0;
    if v :| v in s.db.invites && Live(s.db, v, r.code, r.startedAt) {
      assert Matches(s.db, v, r);
      assert s1.procs[p].pc.InsertUser?;
      i := s1.procs[p].pc.admission.invite;
      SoloInserts(s1, p, k - 1);
    } else {
      assert !exists v :: Matches(s.db, v, r);
      SoloRests(s1, p, k - 1);
    }
  }

  /** What the policy, the tables and the code presented make of a registration: the first account
      of all comes in whatever the policy says; then the cap, then the mode; an invite must be live;
      and the name must be free. */
  ghost predicate EndsAs(db: Db, username: string, code: Option<Code>, now: int, e: Ending) {
    var first, full := |db.accounts| == 0, db.policy.maxUsers > 0 && |db.accounts| >= db.policy.maxUsers;
    var asked := !first && !full && db.policy.mode == InviteOnly;
    var live := exists i :: i in db.invites && Live(db, i, code, now);
    var taken := exists a :: a in db.accounts && db.accounts[a].username == username;
    && (e == Out(UserLimitReached) <==> !first && full)
    && (e == Out(RegistrationClosed) <==> !first && !full && db.policy.mode == Closed)
    && (e == Out(InviteRequired) <==> asked && code == None)
    && (e == Out(InviteInvalid) <==> asked && code != None && !live)
    && (e == Out(UsernameTaken) <==> taken && (first || (!full && (db.policy.mode == Open || (asked && live)))))
    && (e == In(Bootstrap) <==> first && !taken)
    && (e == In(Anyone) <==> !first && !full && db.policy.mode == Open && !taken)
    && ((e.In? && e.admission.ByInvite?) <==> asked && live && !taken)
    && (e.In? && e.admission.ByInvite? ==>
          e.admission.invite in db.invites && Live(db, e.admission.invite, code, now))
    && (e.Out? ==> e.reason != OtherError)
  }

  lemma SoloCounts(s: State, p: Pid, k: nat) returns (e: Ending)
    requires p in s.procs && s.procs[p].Register? && s.procs[p].pc.CountUsers? && k >= 5
    requires forall i :: InviteFree(s, i)
    ensures Ended(Solo(s, p, k), p, s.db, s.procs[p], e)
    ensures EndsAs(s.db, s.procs[p].username, s.procs[p].code, s.procs[p].startedAt, e)
  {
    var r, s1 := s.procs[p], Do(s, Tick(p));
    match Decide(s.db.policy, |s.db.accounts|, r.code)
    case Admit(a) =>
      SoloInserts(s1, p, k - 1);
      e := if NameTaken(s.db, r.username) then Out(UsernameTaken) else In(a);
    case AskInvite =>
      forall i ensures InviteFree(s1, i) { assert InviteFree(s, i); }
      var i := SoloSelects(s1, p, k - 1);
      e := if !(exists v :: v in s.db.invites && Live(s.db, v, r.code, r.startedAt)) then Out(InviteInvalid)
           else if NameTaken(s.db, r.username) then Out(UsernameTaken) else In(ByInvite(i));
    case Deny(reason) =>
      SoloRests(s1, p, k - 1);
      e := Out(reason);
  }

  /** What an admitted registration commits: the account, and the invite used up if there was one. */
  lemma Committed(db: Db, p: Pid, r: Proc, a: Admission)
    requires r.Register? && (a.ByInvite? ==> a.invite in db.invites)
    ensures var db' := WithAccount(db, p, r, a);
      && db'.policy == db.policy && db'.accounts == db.accounts[p := Account(r.username, a)]
      && (!a.ByInvite? ==> db'.invites == db.invites)
      && (a.ByInvite? ==>
            db'.invites
            == db.invites[a.invite := db.invites[a.invite].(usedBy := Some(p), usedAt := Some(r.startedAt))])
  {
  }

  /** An undisturbed registration, to the last detail: whether it succeeds, why not if it does not,
      and which admission and which invite it goes by. Nobody holds a lock when it starts; whoever
      else is there has finished, or has not begun its transaction. */
  lemma RegistrationAlone(s: State, p: Pid, username: string, code: Option<Code>) returns (e: Ending)
    requires p !in s.born && p !in s.procs && LockFree(s) && forall i :: InviteFree(s, i)
    ensures EndsAs(s.db, username, code, s.clock, e)
    ensures var s' := Solo(Do(s, StartRegister(p, username, code)), p, 6);
      && p in s'.procs && s'.procs[p].Register?
      && match e
         case Out(reason) => s'.procs[p].pc == Refused(reason) && s'.db == s.db
         case In(a) =>
           && s'.procs[p].pc == Registered
           && s'.db.policy == s.db.policy && s'.db.accounts == s.db.accounts[p := Account(username, a)]
           && (a.ByInvite? ==>
                 && a.invite in s.db.invites
                 && s'.db.invites
                    == s.db.invites[a.invite := s.db.invites[a.invite].(usedBy := Some(p), usedAt := Some(s.clock))])
           && (!a.ByInvite? ==> s'.db.invites == s.db.invites)
  {
    var s0 := Do(s, StartRegister(p, username, code));
    assert LockFree(s0);
    var s1 := Do(s0, Tick(p));
    forall i ensures InviteFree(s1, i) { assert InviteFree(s, i); }
    e := SoloCounts(s1, p, 5);
    if e.In? { Committed(s.db, p, s1.procs[p], e.admission); }
  }

  /** An undisturbed revocation succeeds exactly for an invite that exists and is neither used nor
      revoked; then that invite, and nothing else, is revoked as of now, and its code no longer works
      for anyone at any time. Otherwise it is not found, and nothing changes. */
  lemma RevocationAlone(s: State, p: Pid, i: InviteId)
    requires p !in s.born && p !in s.procs && InviteFree(s, i)
    ensures var s' := Solo(Do(s, StartRevoke(p, i)), p, 2);
      && p in s'.procs && s'.procs[p].Revoke?
      && if i in s.db.invites && s.db.invites[i].usedAt == None && s.db.invites[i].revokedAt == None then
           && s'.procs[p].rpc == RevokeDone
           && s'.db == s.db.(invites := s.db.invites[i := s.db.invites[i].(revokedAt := Some(s.clock))])
           && forall code, now :: !Live(s'.db, i, code, now)
         else s'.procs[p].rpc == NotFound && s'.db == s.db
  {
    var s0 := Do(s, StartRevoke(p, i));
    assert InviteFree(s0, i);
    var s1 := Do(s0, Tick(p));
    assert Solo(s0, p, 2) == Solo(s1, p, 1) == Solo(Do(s1, Tick(p)), p, 0);
  }

  /** A revoked invite never changes again: it admits nobody, ever. */
  lemma {:induction false} RevokedForever(s: State, steps: seq<Step>, i: InviteId)
    requires Sane(s) && i in s.db.invites && s.db.invites[i].revokedAt.Some?
    ensures Sane(Exec(s, steps)) && i in Exec(s, steps).db.invites && Exec(s, steps).db.invites[i] == s.db.invites[i]
  {
    if steps == [] {
    } else {
      var init, last := steps[..|steps| - 1], steps[|steps| - 1];
      RevokedForever(s, init, i);
      StepSane(Exec(s, init), last);
      RevokedStep(Exec(s, init), last, i);
    }
  }

  lemma RevokedStep(s: State, step: Step, i: InviteId)
    requires Sane(s) && i in s.db.invites && s.db.invites[i].revokedAt.Some?
    ensures i in Do(s, step).db.invites && Do(s, step).db.invites[i] == s.db.invites[i]
  {
    assert InviteOk(s.db, i);
    if step.Tick? && step.p in s.procs {
      assert ProcOk(s.db, step.p, s.procs[step.p]);
    }
  }

  // ----- issuing, errors and crashes -----

  /** An invite is issued exactly under a new id and code, for a lifetime of one minute to thirty
      days, or of seven days if none is given; it is unspent and lives exactly that long. */
  lemma IssuedExactly(s: State, id: InviteId, code: Code, ttl: int)
    requires id !in s.db.invites
    ensures var s' := Do(s, IssueInvite(id, code, ttl));
      var minute := 60 * 1_000_000;
      var lawful := ttl == 0 || minute <= ttl <= 30 * 24 * 60 * minute;
      if lawful && forall i :: i in s.db.invites ==> s.db.invites[i].code != code then
        var expires := s.clock + if ttl == 0 then 7 * 24 * 60 * minute else ttl;
        s' == s.(db := s.db.(invites := s.db.invites[id := Invite(code, expires, None, None, None)]))
      else s' == s
  {
  }

  /** An error ends a request that was not over, and commits nothing; a crash ends every request, and
      leaves what was committed. */
  lemma ErrorsCommitNothing(s: State, p: Pid)
    requires p in s.procs
    ensures var s' := Do(s, Fail(p));
      && s'.db == s.db && s'.procs.Keys == s.procs.Keys
      && match s.procs[p]
         case Register(username, code, at, pc) =>
           s'.procs[p] == Register(username, code, at,
                                   if pc.Registered? || pc.Refused? then pc else Refused(OtherError))
         case Revoke(i, at, rpc) =>
           s'.procs[p] == Revoke(i, at, if rpc.UpdateInvite? || rpc.CommitRevoke? then RevokeFailed else rpc)
    ensures Do(s, Crash).db == s.db && Do(s, Crash).procs == map[]
  {
  }

  // ----- what the sign-up form and the invite list show -----

  datatype RegistrationStatus = RegistrationStatus(mode: Mode, accepting: bool, inviteRequired: bool)

  function Status(policy: Policy, count: nat): RegistrationStatus {
    if count == 0 then RegistrationStatus(policy.mode, true, false)
    else if policy.maxUsers > 0 && count >= policy.maxUsers then RegistrationStatus(policy.mode, false, false)
    else if policy.mode == Closed then RegistrationStatus(policy.mode, false, false)
    else RegistrationStatus(policy.mode, true, policy.mode == InviteOnly)
  }

  /** The form shows what a registration would meet: `accepting` when some registration is not
      denied, `inviteRequired` when every admitted one has looked up an invite. */
  lemma StatusTellsDecision(policy: Policy, count: nat)
    ensures Status(policy, count).mode == policy.mode
    ensures Status(policy, count).accepting <==> exists code :: !Decide(policy, count, code).Deny?
    ensures Status(policy, count).inviteRequired <==> Decide(policy, count, None) == Deny(InviteRequired)
    ensures Status(policy, count).inviteRequired ==> forall code :: !Decide(policy, count, code).Admit?
  {
    if Status(policy, count).accepting {
      assert !Decide(policy, count, Some(0)).Deny?;
    }
  }

  /** Without the functions: what the form shows for any policy and number of accounts. */
  lemma StatusExactly(policy: Policy, count: nat)
    ensures var open := count == 0 || (policy.mode != Closed && (policy.maxUsers <= 0 || count < policy.maxUsers));
      && (Status(policy, count).accepting <==> open)
      && (Status(policy, count).inviteRequired <==> open && count > 0 && policy.mode == InviteOnly)
  {
  }

  datatype InviteStatus = Used | WasRevoked | Expired | Active

  function StatusOf(v: Invite, now: int): InviteStatus {
    if v.usedAt.Some? then Used
    else if v.revokedAt.Some? then WasRevoked
    else if now > v.expiresAt then Expired
    else Active
  }

  /** In every run the listed status tells whether the code still works, except in the very
      instant of expiry, when the list says active and the redemption is refused. */
  lemma ActiveMeansRedeemable(policy: Policy, steps: seq<Step>, i: InviteId, now: int)
    requires i in Exec(Init(policy), steps).db.invites
    ensures var v := Exec(Init(policy), steps).db.invites[i];
      && (StatusOf(v, now) == Active && now != v.expiresAt <==> Redeemable(v, v.code, now))
      && (StatusOf(v, now) == Used <==> v.usedBy.Some?)
      && (StatusOf(v, now) == WasRevoked <==> v.revokedAt.Some?)
  {
    RunSane(policy, steps);
    assert InviteOk(Exec(Init(policy), steps).db, i);
  }

  /** The instant of expiry, reached from the empty server: listed as active, refused. */
  lemma ActiveButRefused(policy: Policy, code: Code)
    ensures var s := Exec(Init(policy), [IssueInvite(1, code, 0), Wait(INVITE_DEFAULT_TTL)]);
      && 1 in s.db.invites && s.clock == s.db.invites[1].expiresAt
      && StatusOf(s.db.invites[1], s.clock) == Active && !Redeemable(s.db.invites[1], code, s.clock)
  {
    var issue, wait := IssueInvite(1, code, 0), Wait(INVITE_DEFAULT_TTL);
    assert [issue, wait][..1] == [issue] && [issue][..0] == [];
    assert Exec(Init(policy), [issue]) == Do(Init(policy), issue);
  }
}
