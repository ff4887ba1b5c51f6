/** Exactly what every request answers and leaves, said of the rows themselves: when it is accepted, with
    which error it is refused otherwise, and the tables after it. */
module Acceptance {
  import opened Models
  import opened Rbac
  import opened Deps
  import opened TaskService
  import opened OrgService
  import opened LabelService
  import opened Api
  import opened Invariants
  import opened Labels
  import opened Patches
  import opened Tenancy

  /** The caller may act on the task: on the org that owns its project. */
  ghost predicate MayActOn(db: Tables, t: nat, caller: nat, roles: set<OrgRole>) {
    && t < |db.tasks|
    && db.tasks[t].projectId < |db.projects|
    && MayAct(db, db.projects[db.tasks[t].projectId].orgId, caller, roles)
  }

  ghost predicate HasPending(db: Tables, t: nat) {
    exists i :: 0 <= i < |db.approvals| && db.approvals[i].PendingFor(t)
  }

  ghost predicate HasMembership(db: Tables, orgId: nat, userId: nat) {
    exists k :: 0 <= k < |db.members| && db.members[k].orgId == orgId && db.members[k].userId == userId
  }

  ghost predicate EmailTaken(db: Tables, email: string) {
    exists u :: 0 <= u < |db.users| && db.users[u].email == email
  }

  ghost predicate NameTaken(db: Tables, orgId: nat, name: string) {
    exists l :: 0 <= l < |db.labels| && db.labels[l].orgId == orgId && db.labels[l].name == name
  }

  predicate Finishes(updates: Updates) {
    StatusField in updates && updates[StatusField].StatusValue? && updates[StatusField].status == Done
  }

  /** The patch neither finishes the task nor nulls a required column, and assigns to a known user. */
  predicate SoundPatch(db: Tables, updates: Updates) {
    && (StatusField in updates ==> updates[StatusField].StatusValue? && updates[StatusField].status != Done)
    && (TitleField in updates ==> !updates[TitleField].Null?)
    && (PriorityField in updates ==> !updates[PriorityField].Null?)
    && (AssigneeField in updates && updates[AssigneeField].UserRef? ==> updates[AssigneeField].user < |db.users|)
  }

  /** The request is accepted. */
  ghost predicate Allowed(db: Tables, req: Req) {
    match req.op
    case Register(email, _) => !EmailTaken(db, email)
    case CreateOrg(_) => Known(db, req.caller)
    case Invite(orgId, email, _) =>
      && MayAct(db, orgId, req.caller, {Admin, Owner})
      && exists u :: 0 <= u < |db.users| && db.users[u].email == email && !HasMembership(db, orgId, u)
    case AddProject(orgId, _) => MayAct(db, orgId, req.caller, {Manager, Admin, Owner})
    case AddTask(p, body) =>
      && p < |db.projects|
      && MayAct(db, db.projects[p].orgId, req.caller, EVERYONE)
      && (body.assigneeId.Some? ==> body.assigneeId.value < |db.users|)
    case Patch(t, updates) => MayActOn(db, t, req.caller, EVERYONE) && SoundPatch(db, updates)
    case Request(t) => MayActOn(db, t, req.caller, EVERYONE) && !HasPending(db, t)
    case Approve(t, _, _) => MayActOn(db, t, req.caller, {Manager, Admin, Owner}) && HasPending(db, t)
    case Reject(t, _, _) => MayActOn(db, t, req.caller, {Manager, Admin, Owner}) && HasPending(db, t)
    case AddLabel(orgId, name, _) => MayAct(db, orgId, req.caller, EVERYONE) && !NameTaken(db, orgId, name)
    case Attach(t, l) =>
      && MayActOn(db, t, req.caller, EVERYONE)
      && l < |db.labels|
      && db.labels[l].orgId == db.projects[db.tasks[t].projectId].orgId
    case Detach(t, _) => MayActOn(db, t, req.caller, EVERYONE)
  }

  /** The error of a request that is not: unknown callers get 401, unknown tasks and projects 404, callers
      without the role 403, a patch to Done 400, a second pending row, a missing one or a taken name
      409; what is then left fails at commit.  Endpoints that look up a task before they look at the
      caller answer 404 to anyone. */
  ghost function Why(db: Tables, req: Req): Error {
    match req.op
    case Register(_, _) => Conflict
    case CreateOrg(_) => Unauthorized
    case Invite(orgId, email, _) =>
      if !Known(db, req.caller) then Unauthorized
      else if !Holds(db, orgId, req.caller, {Admin, Owner}) then Forbidden
      else if !EmailTaken(db, email) then NotFound
      else Conflict
    case AddProject(_, _) => if !Known(db, req.caller) then Unauthorized else Forbidden
    case AddTask(p, _) =>
      if !Known(db, req.caller) then Unauthorized
      else if p >= |db.projects| then NotFound
      else if !Holds(db, db.projects[p].orgId, req.caller, EVERYONE) then Forbidden
      else CommitFailed
    case Patch(t, updates) =>
      if t >= |db.tasks| then NotFound
      else if !Known(db, req.caller) then Unauthorized
      else if !MayActOn(db, t, req.caller, EVERYONE) then Forbidden
      else if Finishes(updates) then BadRequest
      else CommitFailed
    case AddLabel(orgId, _, _) =>
      if !Known(db, req.caller) then Unauthorized
      else if !Holds(db, orgId, req.caller, EVERYONE) then Forbidden
      else Conflict
    case Attach(t, _) =>
      if t >= |db.tasks| then NotFound
      else if !Known(db, req.caller) then Unauthorized
      else if !MayActOn(db, t, req.caller, EVERYONE) then Forbidden
      else NotFound
    case Detach(t, _) =>
      if t >= |db.tasks| then NotFound
      else if !Known(db, req.caller) then Unauthorized
      else Forbidden
    case _ =>
      if !Known(db, req.caller) then Unauthorized
      else if req.op.taskId >= |db.tasks| then NotFound
      else if !MayActOn(db, req.op.taskId, req.caller, if req.op.Request? then EVERYONE else MANAGERS) then Forbidden
      else Conflict
  }

  /** The row is what a patch makes of the task: each column reads the patch's value, or what it read. */
  ghost predicate PatchedTo(task: Task, updates: Updates, row: Task) {
    && row.projectId == task.projectId
    && row.reporterId == task.reporterId
    && forall f :: GetAttr(row, f) == if f in updates then updates[f] else GetAttr(task, f)
  }

  /** The pending row `i` of task `t` decided by `reviewer`, and the task's new status. */
  ghost predicate DecidedTo(
    db: Tables, next: Tables, t: nat, i: nat, verdict: ApprovalStatus, status: TaskStatus,
    reviewer: nat, notes: Option<string>, now: int)
  {
    && t < |db.tasks| && i < |db.approvals| && db.approvals[i].PendingFor(t)
    && next == db.(
         approvals := db.approvals[i :=
           Approval(t, db.approvals[i].requestedBy, verdict, Some(reviewer), Some(now), notes)],
         tasks := db.tasks[t := db.tasks[t].(status := Some(status))])
  }

  /** What an accepted request leaves, and the row it answers with. */
  ghost predicate Leaves(db: Tables, req: Req, next: Tables, row: nat) {
    match req.op
    case Register(email, fullName) =>
      row == |db.users| && next == db.(users := db.users + [User(email, fullName, true)])
    case CreateOrg(name) =>
      && row == |db.orgs|
      && next == db.(orgs := db.orgs + [Organization(name, "free")],
                     members := db.members + [OrgMember(row, req.caller, Owner)])
    case Invite(orgId, email, role) =>
      && row == |db.members|
      && exists u: nat :: u < |db.users| && db.users[u].email == email
                          && next == db.(members := db.members + [OrgMember(orgId, u, role)])
    case AddProject(orgId, body) =>
      && row == |db.projects|
      && next == db.(projects := db.projects + [
           Project(orgId, body.name, body.status, body.startDate, body.targetDate)])
    case AddTask(p, body) =>
      && row == |db.tasks|
      && next == db.(tasks := db.tasks + [
           Task(p, req.caller, Some(body.title), body.description, Some(body.status), Some(body.priority),
                body.assigneeId, body.dueDate)])
    case Patch(t, updates) =>
      && row == t < |db.tasks| == |next.tasks|
      && PatchedTo(db.tasks[t], updates, next.tasks[t])
      && next == db.(tasks := db.tasks[t := next.tasks[t]])
    case Request(t) =>
      && row == |db.approvals|
      && t < |db.tasks|
      && next == db.(approvals := db.approvals + [Approval(t, req.caller, Pending, None, None, None)],
                     tasks := db.tasks[t := db.tasks[t].(status := Some(InReview))])
    case Approve(t, notes, now) => DecidedTo(db, next, t, row, Approved, Done, req.caller, notes, now)
    case Reject(t, notes, now) => DecidedTo(db, next, t, row, Rejected, InProgress, req.caller, notes, now)
    case AddLabel(orgId, name, color) =>
      row == |db.labels| && next == db.(labels := db.labels + [Label(orgId, name, color)])
    case Attach(t, l) =>
      && row == l
      && next == db.(taskLabels := next.taskLabels)
      && multiset(next.taskLabels)
         == multiset(db.taskLabels)
            + if TaskLabel(t, l) in db.taskLabels then multiset{} else multiset{TaskLabel(t, l)}
    case Detach(t, l) =>
      && row == l
      && next == db.(taskLabels := next.taskLabels)
      && multiset(next.taskLabels) == multiset(db.taskLabels) - multiset{TaskLabel(t, l)}
  }

  /** The whole of what a request may answer and do. */
  ghost predicate Meets(db: Tables, req: Req, response: Response) {
    match response.outcome
    case Ok(row) => Allowed(db, req) && Leaves(db, req, response.tables, row)
    case Err(error) => !Allowed(db, req) && error == Why(db, req) && response.tables == db
  }

  // ---------- The gates ----------

  lemma OrgGateMeans(db: Tables, orgId: nat, caller: nat, minimum: OrgRole)
    requires UniqueAccounts(db)
    ensures OrgGate(db, orgId, caller, minimum)
            == if !Known(db, caller) then Some(Unauthorized)
               else if !Holds(db, orgId, caller, AtLeast(minimum)) then Some(Forbidden)
               else None
  {
    hide Holds, AtLeast, RoleSatisfies;
    HasRoleMeans(db, orgId, caller, minimum);
  }

  lemma ProjectGateMeans(db: Tables, p: nat, caller: nat, minimum: OrgRole)
    requires UniqueAccounts(db)
    ensures ProjectGate(db, p, caller, minimum)
            == if p >= |db.projects| then Some(NotFound)
               else if !Known(db, caller) then Some(Unauthorized)
               else if !Holds(db, db.projects[p].orgId, caller, AtLeast(minimum)) then Some(Forbidden)
               else None
  {
    hide Holds, AtLeast, RoleSatisfies, HasRole;
    if p < |db.projects| {
      HasRoleMeans(db, db.projects[p].orgId, caller, minimum);
    }
  }

  lemma TaskGateMeans(db: Tables, t: nat, caller: nat, minimum: OrgRole)
    requires ForeignKeys(db) && UniqueAccounts(db)
    ensures TaskGate(db, t, caller, minimum)
            == if t >= |db.tasks| then Some(NotFound)
               else if !Known(db, caller) then Some(Unauthorized)
               else if !MayActOn(db, t, caller, AtLeast(minimum)) then Some(Forbidden)
               else None
  {
    hide Holds, AtLeast, RoleSatisfies, HasRole;
    if t < |db.tasks| {
      HasRoleMeans(db, db.projects[db.tasks[t].projectId].orgId, caller, minimum);
    }
  }

  // ---------- One kind of request at a time ----------

  lemma InviteeExactly(db: Tables, orgId: nat, email: string)
    requires UniqueAccounts(db)
    ensures var user := FindUser(db.users, email);
            && (user.None? <==> !EmailTaken(db, email))
            && ((user.Some? && FindMember(db.members, orgId, user.value).None?)
                <==> exists u :: 0 <= u < |db.users| && db.users[u].email == email && !HasMembership(db, orgId, u))
  {
  }

  lemma AccountOpMeets(db: Tables, req: Req)
    requires UniqueAccounts(db) && (req.op.Register? || req.op.CreateOrg?)
    ensures Meets(db, req, Handle(db, req))
  {
  }

  lemma InviteMeets(db: Tables, req: Req)
    requires UniqueAccounts(db) && req.op.Invite?
    ensures Meets(db, req, Handle(db, req))
  {
    hide OrgGate, Holds, HasMembership, EmailTaken;
    OrgGateMeans(db, req.op.orgId, req.caller, Admin);
    InviteeExactly(db, req.op.orgId, req.op.email);
  }

  lemma OrgRowMeets(db: Tables, req: Req)
    requires UniqueAccounts(db) && (req.op.AddProject? || req.op.AddLabel?)
    ensures Meets(db, req, Handle(db, req))
  {
    hide OrgGate, Holds;
    OrgGateMeans(db, req.op.orgId, req.caller, if req.op.AddProject? then Manager else Member);
  }

  lemma AddTaskMeets(db: Tables, req: Req)
    requires UniqueAccounts(db) && req.op.AddTask?
    ensures Meets(db, req, Handle(db, req))
  {
    hide ProjectGate, Holds;
    ProjectGateMeans(db, req.op.projectId, req.caller, Member);
  }

  lemma SoundPatchExactly(db: Tables, t: nat, updates: Updates)
    requires ForeignKeys(db) && t < |db.tasks|
    ensures !DirectDoneTransition(updates) && Storable(db, Override(db.tasks[t], updates)) <==> SoundPatch(db, updates)
  {
  }

  lemma PatchMeets(db: Tables, req: Req)
    requires ForeignKeys(db) && UniqueAccounts(db) && req.op.Patch?
    ensures Meets(db, req, Handle(db, req))
  {
    hide TaskGate, Holds, Override, Storable, SoundPatch, GetAttr;
    var t, updates := req.op.taskId, req.op.updates;
    TaskGateMeans(db, t, req.caller, Member);
    if t < |db.tasks| {
      SoundPatchExactly(db, t, updates);
      forall f ensures GetAttr(Override(db.tasks[t], updates), f)
                       == if f in updates then updates[f] else GetAttr(db.tasks[t], f) {
        PatchReads(db.tasks[t], updates, f);
      }
      PatchReads(db.tasks[t], updates, TitleField);
    }
  }

  lemma WorkflowMeets(db: Tables, req: Req)
    requires ForeignKeys(db) && UniqueAccounts(db) && IsWorkflow(req.op)
    ensures Meets(db, req, Handle(db, req))
  {
    hide TaskGate, Holds;
    TaskGateMeans(db, req.op.taskId, req.caller, if req.op.Request? then Member else Manager);
  }

  lemma AttachLeaves(db: Tables, t: nat, l: nat)
    ensures var served := AttachLabel(db, t, l);
            && served.outcome == Ok(l)
            && served.tables == db.(taskLabels := served.tables.taskLabels)
            && multiset(served.tables.taskLabels)
               == multiset(db.taskLabels)
                  + if TaskLabel(t, l) in db.taskLabels then multiset{} else multiset{TaskLabel(t, l)}
  {
  }

  lemma DetachLeaves(db: Tables, t: nat, l: nat)
    ensures var served := DetachLabel(db, t, l);
            && served.outcome == Ok(l)
            && served.tables == db.(taskLabels := served.tables.taskLabels)
            && multiset(served.tables.taskLabels) == multiset(db.taskLabels) - multiset{TaskLabel(t, l)}
  {
    var existing := FindTaskLabel(db.taskLabels, t, l);
    if existing.Some? {
      WithoutRowCounts(db.taskLabels, existing.value);
    }
  }

  lemma LabelCallMeets(db: Tables, req: Req)
    requires ForeignKeys(db) && UniqueAccounts(db) && (req.op.Attach? || req.op.Detach?)
    ensures Meets(db, req, Handle(db, req))
  {
    hide TaskGate, Holds, AttachLabel, DetachLabel;
    TaskGateMeans(db, req.op.taskId, req.caller, Member);
    AttachLeaves(db, req.op.taskId, req.op.labelId);
    DetachLeaves(db, req.op.taskId, req.op.labelId);
  }

  // ---------- All of them ----------

  lemma HandleMeets(db: Tables, req: Req)
    requires ForeignKeys(db) && UniqueAccounts(db)
    ensures Meets(db, req, Handle(db, req))
  {
    hide Handle, Meets;
    match req.op
    case Register(_, _) => AccountOpMeets(db, req);
    case CreateOrg(_) => AccountOpMeets(db, req);
    case Invite(_, _, _) => InviteMeets(db, req);
    case AddProject(_, _) => OrgRowMeets(db, req);
    case AddLabel(_, _, _) => OrgRowMeets(db, req);
    case AddTask(_, _) => AddTaskMeets(db, req);
    case Patch(_, _) => PatchMeets(db, req);
    case Attach(_, _) => LabelCallMeets(db, req);
    case Detach(_, _) => LabelCallMeets(db, req);
    case _ => WorkflowMeets(db, req);
  }

  /** In every reachable state every request gets exactly the answer, and leaves exactly the tables,
      that the rows call for. */
  lemma AnsweredExactly(reqs: seq<Req>, req: Req)
    ensures Meets(Run(reqs), req, Handle(Run(reqs), req))
  {
    hide Handle, Meets;
    RunInv(reqs);
    HandleMeets(Run(reqs), req);
  }

  /** In every reachable state a request is accepted exactly when the rows allow it: by the caller's
      role along task, project and org, the pending row of the task, the unique names and the
      references of the body. */
  lemma AcceptedExactly(reqs: seq<Req>, req: Req)
    ensures Accepts(Run(reqs), req) <==> Allowed(Run(reqs), req)
  {
    hide Handle, Allowed, Leaves;
    AnsweredExactly(reqs, req);
  }

  /** An accepted invitation adds one row: the org, the user with that email, and the role asked for. */
  lemma InvitationAddsRow(db: Tables, caller: nat, orgId: nat, email: string, role: OrgRole)
    requires Accepts(db, Req(caller, Invite(orgId, email, role)))
    ensures var next := Handle(db, Req(caller, Invite(orgId, email, role))).tables;
            exists u: nat :: u < |db.users| && db.users[u].email == email
                             && next == db.(members := db.members + [OrgMember(orgId, u, role)])
  {
  }
}
