/** Tenants: the three gates decide alike, labels stay in their org, and strangers change nothing. */
module Tenancy {
  import opened Models
  import opened Rbac
  import opened Deps
  import opened LabelService
  import opened Api
  import opened Runs
  import opened Invariants

  /** The caller is an active user. */
  predicate Known(db: Tables, caller: nat) {
    caller < |db.users| && db.users[caller].active
  }

  /** The user holds one of the roles in the org, by some membership row. */
  ghost predicate Holds(db: Tables, orgId: nat, userId: nat, roles: set<OrgRole>) {
    exists k :: 0 <= k < |db.members| && db.members[k].orgId == orgId && db.members[k].userId == userId
                && db.members[k].role in roles
  }

  ghost predicate MayAct(db: Tables, orgId: nat, caller: nat, roles: set<OrgRole>) {
    Known(db, caller) && Holds(db, orgId, caller, roles)
  }

  /** In every reachable state the task, project and org gates give one answer along the chain from
      task to org; they let through exactly the users who may act; and the branch for a task whose
      project is missing is never taken. */
  lemma GateAgreement(reqs: seq<Req>, t: nat, caller: nat, minimum: OrgRole)
    requires t < |Run(reqs).tasks|
    ensures var db := Run(reqs);
            var p := db.tasks[t].projectId;
            && p < |db.projects|
            && db.projects[p].orgId < |db.orgs|
            && TaskGate(db, t, caller, minimum) == ProjectGate(db, p, caller, minimum)
            && ProjectGate(db, p, caller, minimum) == OrgGate(db, db.projects[p].orgId, caller, minimum)
            && (TaskGate(db, t, caller, minimum).None?
                <==> MayAct(db, db.projects[p].orgId, caller, AtLeast(minimum)))
  {
    hide Handle;
    RunInv(reqs);
    var db := Run(reqs);
    HasRoleMeans(db, db.projects[db.tasks[t].projectId].orgId, caller, minimum);
    hide AtLeast, RoleSatisfies;
  }

  /** The first membership row decides as any would: there is only one. */
  lemma HasRoleMeans(db: Tables, orgId: nat, userId: nat, minimum: OrgRole)
    requires UniqueAccounts(db)
    ensures HasRole(db.members, orgId, userId, minimum) <==> Holds(db, orgId, userId, AtLeast(minimum))
  {
    hide AtLeast, RoleSatisfies;
    OneMembership(db, orgId, userId);
    forall role: OrgRole ensures RoleSatisfies(role, minimum) <==> role in AtLeast(minimum) {
      RolesAbove(role, minimum);
    }
  }

  /** Whoever manages a task is a Manager, an Admin or an Owner of the org that owns its project. */
  lemma ManagesMeans(db: Tables, userId: nat, t: nat)
    requires UniqueAccounts(db)
    ensures Manages(db, userId, t)
            <==> && t < |db.tasks|
                 && db.tasks[t].projectId < |db.projects|
                 && Holds(db, db.projects[db.tasks[t].projectId].orgId, userId, MANAGERS)
  {
    if t < |db.tasks| && db.tasks[t].projectId < |db.projects| {
      HasRoleMeans(db, db.projects[db.tasks[t].projectId].orgId, userId, Manager);
    }
  }

  /** With one membership row per user and org, finding one is finding the only one. */
  lemma OneMembership(db: Tables, orgId: nat, userId: nat)
    requires UniqueAccounts(db)
    ensures forall k :: 0 <= k < |db.members| && db.members[k].orgId == orgId && db.members[k].userId == userId ==>
                          FindMember(db.members, orgId, userId) == Some(k)
  {
  }

  /** In every reachable state an attached label belongs to the org that owns the task's project. */
  lemma TenantIsolation(reqs: seq<Req>, k: nat)
    requires k < |Run(reqs).taskLabels|
    ensures var db := Run(reqs);
            var pair := db.taskLabels[k];
            && pair.taskId < |db.tasks|
            && pair.labelId < |db.labels|
            && db.tasks[pair.taskId].projectId < |db.projects|
            && db.labels[pair.labelId].orgId == db.projects[db.tasks[pair.taskId].projectId].orgId
  {
    hide Handle;
    RunInv(reqs);
  }

  // ---------- Strangers ----------

  predicate TaskIn(db: Tables, t: nat, orgId: nat) {
    t < |db.tasks| && db.tasks[t].projectId < |db.projects| && db.projects[db.tasks[t].projectId].orgId == orgId
  }

  predicate IsMember(db: Tables, orgId: nat, userId: nat) {
    FindMember(db.members, orgId, userId).Some?
  }

  /** The org's own rows: its memberships, projects and labels are those it had. */
  ghost predicate DirectoryUntouched(db: Tables, next: Tables, orgId: nat) {
    && db.members <= next.members && db.projects <= next.projects && db.labels <= next.labels
    && (forall k :: |db.members| <= k < |next.members| ==> next.members[k].orgId != orgId)
    && (forall p :: |db.projects| <= p < |next.projects| ==> next.projects[p].orgId != orgId)
    && (forall l :: |db.labels| <= l < |next.labels| ==> next.labels[l].orgId != orgId)
  }

  /** The tasks of the org's projects, their approvals and their attached labels are those it had. */
  ghost predicate WorkUntouched(db: Tables, next: Tables, orgId: nat) {
    && (forall t: nat :: TaskIn(next, t, orgId) ==> t < |db.tasks| && next.tasks[t] == db.tasks[t])
    && (forall i :: 0 <= i < |next.approvals| && TaskIn(next, next.approvals[i].taskId, orgId) ==>
          i < |db.approvals| && next.approvals[i] == db.approvals[i])
    && (forall pair: TaskLabel :: TaskIn(next, pair.taskId, orgId) ==>
          (pair in next.taskLabels <==> pair in db.taskLabels))
  }

  /** The request is refused, or names no task of the org and creates none in it. */
  lemma StrangerStaysOut(db: Tables, req: Req, orgId: nat)
    requires !IsMember(db, orgId, req.caller)
    ensures Accepts(db, req) && NamesTask(req.op) ==> !TaskIn(db, req.op.taskId, orgId)
    ensures Accepts(db, req) && req.op.AddTask? ==>
              req.op.projectId < |db.projects| && db.projects[req.op.projectId].orgId != orgId
  {
  }

  lemma StrangerLeavesDirectory(db: Tables, req: Req, orgId: nat)
    requires Referential(db) && orgId < |db.orgs| && !IsMember(db, orgId, req.caller)
    ensures DirectoryUntouched(db, Handle(db, req).tables, orgId)
  {
  }

  lemma DetachLeavesOthers(db: Tables, d: nat, l: nat, pair: TaskLabel)
    requires pair != TaskLabel(d, l)
    ensures pair in DetachLabel(db, d, l).tables.taskLabels <==> pair in db.taskLabels
  {
    var rows, existing := db.taskLabels, FindTaskLabel(db.taskLabels, d, l);
    if existing.Some? {
      assert rows == rows[..existing.value] + [rows[existing.value]] + rows[existing.value + 1..];
    }
  }

  /** A step changes only the task it names, and only pairs of the task it names. */
  lemma StepOnNamedTask(db: Tables, req: Req, t: nat)
    requires t < |db.tasks| && !(Accepts(db, req) && NamesTask(req.op) && req.op.taskId == t)
    ensures Handle(db, req).tables.tasks[t] == db.tasks[t]
    ensures forall l :: TaskLabel(t, l) in Handle(db, req).tables.taskLabels <==> TaskLabel(t, l) in db.taskLabels
  {
    hide DetachLabel;
    if !Accepts(db, req) {
      RefusedChangesNothing(db, req);
    } else if req.op.Detach? {
      forall l: nat
        ensures TaskLabel(t, l) in Handle(db, req).tables.taskLabels <==> TaskLabel(t, l) in db.taskLabels
      {
        DetachLeavesOthers(db, req.op.taskId, req.op.labelId, TaskLabel(t, l));
      }
      DetachLeavesTasks(db, req.op.taskId, req.op.labelId);
    }
  }

  lemma DetachLeavesTasks(db: Tables, d: nat, l: nat)
    ensures DetachLabel(db, d, l).tables.tasks == db.tasks
  {
  }

  lemma StrangerLeavesWork(db: Tables, req: Req, orgId: nat)
    requires Referential(db) && Isolated(db) && orgId < |db.orgs| && !IsMember(db, orgId, req.caller)
    ensures WorkUntouched(db, Handle(db, req).tables, orgId)
  {
    hide Handle, Refusal;
    var next := Handle(db, req).tables;
    StepGrows(db, req);
    StrangerStaysOut(db, req, orgId);
    forall t: nat | TaskIn(next, t, orgId)
      ensures TaskIn(db, t, orgId) && next.tasks[t] == db.tasks[t]
      ensures forall l :: TaskLabel(t, l) in next.taskLabels <==> TaskLabel(t, l) in db.taskLabels
      ensures !WorksOn(db, req, t)
    {
      if t < |db.tasks| {
        assert SameOrigin(db.tasks[t], next.tasks[t]);
        assert TaskIn(db, t, orgId);
        StepOnNamedTask(db, req, t);
      } else {
        StepNewTask(db, req, t);
        StepNewTaskProject(db, req);
      }
    }
    forall i | 0 <= i < |next.approvals| && TaskIn(next, next.approvals[i].taskId, orgId)
      ensures i < |db.approvals| && next.approvals[i] == db.approvals[i]
    {
      StepLeavesRows(db, req, next.approvals[i].taskId);
    }
  }

  lemma StepNewTaskProject(db: Tables, req: Req)
    requires req.op.AddTask? && Accepts(db, req)
    ensures Handle(db, req).tables.projects == db.projects
    ensures Handle(db, req).tables.tasks[|db.tasks|].projectId == req.op.projectId
  {
  }

  /** Whatever people outside an org ask for, in any number of requests, all rows of the org stay as
      they are. */
  lemma {:induction false} StrangersChangeNothing(db: Tables, reqs: seq<Req>, orgId: nat)
    requires Inv(db) && orgId < |db.orgs|
    requires forall i :: 0 <= i < |reqs| ==> !IsMember(db, orgId, reqs[i].caller)
    ensures DirectoryUntouched(db, RunFrom(db, reqs), orgId) && WorkUntouched(db, RunFrom(db, reqs), orgId)
  {
    hide Handle;
    if reqs != [] {
      var n := |reqs| - 1;
      var mid := RunFrom(db, reqs[..n]);
      StrangersChangeNothing(db, reqs[..n], orgId);
      RunFromKeepsInv(db, reqs[..n]);
      RunFromGrows(db, reqs[..n]);
      assert !IsMember(mid, orgId, reqs[n].caller);
      StrangerLeavesDirectory(mid, reqs[n], orgId);
      StrangerLeavesWork(mid, reqs[n], orgId);
      StepGrows(mid, reqs[n]);
      UntouchedTransitive(db, mid, Handle(mid, reqs[n]).tables, orgId);
    }
  }

  lemma UntouchedTransitive(db: Tables, mid: Tables, next: Tables, orgId: nat)
    requires Referential(mid) && Grows(mid, next)
    requires DirectoryUntouched(db, mid, orgId) && WorkUntouched(db, mid, orgId)
    requires DirectoryUntouched(mid, next, orgId) && WorkUntouched(mid, next, orgId)
    ensures DirectoryUntouched(db, next, orgId) && WorkUntouched(db, next, orgId)
  {
  }
}
